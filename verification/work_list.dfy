/** The work list: the URL file's text cut into lines as Python's
    `str.splitlines()` does (web_bulk_downloader.py, lines 89-90). */
module WorkList {

  /** The characters `str.splitlines` treats as line boundaries. */
  predicate IsLineBreak(c: char)
  {
    || c == '\n' || c == '\r'
    || c == '\U{000B}' || c == '\U{000C}'
    || c == '\U{001C}' || c == '\U{001D}' || c == '\U{001E}'
    || c == '\U{0085}' || c == '\U{2028}' || c == '\U{2029}'
  }

  predicate BreakFree(s: string)
  {
    forall j :: 0 <= j < |s| ==> !IsLineBreak(s[j])
  }

  /** A line terminator: one boundary character, or the pair "\r\n". */
  predicate IsTerminator(e: string)
  {
    (|e| == 1 && IsLineBreak(e[0])) || e == "\r\n"
  }

  /** One line of the file together with the terminator that ended it
      ("" for a last line the file does not terminate). */
  datatype Line = Line(text: string, ending: string)

  /** Position of the first line boundary at or after `i`, or `|s|`. */
  function BreakFrom(s: string, i: nat): (k: nat)
    requires i <= |s|
    ensures i <= k <= |s|
    ensures k < |s| ==> IsLineBreak(s[k])
    decreases |s| - i
  {
    if i == |s| || IsLineBreak(s[i]) then i else BreakFrom(s, i + 1)
  }

  /** Everything the scan passes over is boundary-free. */
  lemma {:induction false} BreakFromSkipsNoBreak(s: string, i: nat)
    requires i <= |s|
    ensures forall j :: i <= j < BreakFrom(s, i) ==> !IsLineBreak(s[j])
    decreases |s| - i
  {
    if i < |s| && !IsLineBreak(s[i]) {
      BreakFromSkipsNoBreak(s, i + 1);
    }
  }

  /** Length of the terminator starting at `k`: "\r\n" counts as one
      terminator of length 2; the end of the text has none. */
  function EndLength(s: string, k: nat): (n: nat)
    requires k <= |s|
    ensures k + n <= |s|
    ensures k < |s| ==> n >= 1
  {
    if k == |s| then 0
    else if s[k] == '\r' && k + 1 < |s| && s[k + 1] == '\n' then 2
    else 1
  }

  /** The lines of `s` that start at or after position `i`. */
  function LinesFrom(s: string, i: nat): seq<Line>
    requires i <= |s|
    decreases |s| - i
  {
    if i == |s| then []
    else
      var k := BreakFrom(s, i);
      var m := k + EndLength(s, k);
      [Line(s[i..k], s[k..m])] + LinesFrom(s, m)
  }

  /** Scanning `p + q` from inside `q` finds the boundary `q` has. */
  lemma {:induction false} BreakFromShift(p: string, q: string, i: nat)
    requires i <= |q|
    ensures BreakFrom(p + q, |p| + i) == |p| + BreakFrom(q, i)
    decreases |q| - i
  {
    if i < |q| {
      assert (p + q)[|p| + i] == q[i];
      if !IsLineBreak(q[i]) {
        BreakFromShift(p, q, i + 1);
      }
    }
  }

  /** Scanning `p + q` across a boundary-free stretch of `p`. */
  lemma {:induction false} BreakFromAcross(p: string, q: string, i: nat)
    requires i <= |p|
    requires forall j :: i <= j < |p| ==> !IsLineBreak(p[j])
    ensures BreakFrom(p + q, i) == |p| + BreakFrom(q, 0)
    decreases |p| - i
  {
    if i < |p| {
      assert (p + q)[i] == p[i];
      BreakFromAcross(p, q, i + 1);
    } else {
      BreakFromShift(p, q, 0);
    }
  }

  /** A character appended after a boundary found earlier is never reached;
      one appended to a boundary-free tail is where the scan stops. */
  lemma {:induction false} BreakFromAppend(s: string, c: char, i: nat)
    requires i <= |s|
    ensures BreakFrom(s, i) < |s| ==> BreakFrom(s + [c], i) == BreakFrom(s, i)
    ensures BreakFrom(s, i) == |s| && IsLineBreak(c) ==> BreakFrom(s + [c], i) == |s|
    decreases |s| - i
  {
    if i < |s| {
      assert (s + [c])[i] == s[i];
      if !IsLineBreak(s[i]) {
        BreakFromAppend(s, c, i + 1);
      }
    } else {
      assert (s + [c])[i] == c;
    }
  }

  /** One step of `LinesFrom`: the line starting at `i`, then the rest. */
  lemma LinesFromStep(s: string, i: nat, k: nat, m: nat, line: Line)
    requires i < |s| && k == BreakFrom(s, i) && m == k + EndLength(s, k)
    requires line.text == s[i..k] && line.ending == s[k..m]
    ensures LinesFrom(s, i) == [line] + LinesFrom(s, m)
  {
  }

  /** `str.splitlines(keepends=True)`, with text and terminator kept apart. */
  function Lines(s: string): seq<Line>
  {
    LinesFrom(s, 0)
  }

  /** The lines and terminators laid end to end. */
  function Flatten(lines: seq<Line>): string
  {
    if |lines| == 0 then [] else lines[0].text + lines[0].ending + Flatten(lines[1..])
  }

  /** The texts of the lines, in order. */
  function Texts(lines: seq<Line>): (r: seq<string>)
    ensures |r| == |lines|
    ensures forall k :: 0 <= k < |r| ==> r[k] == lines[k].text
  {
    if |lines| == 0 then [] else [lines[0].text] + Texts(lines[1..])
  }

  /** The shape of every line: no text holds a boundary; only the last line
      can lack a terminator, and then it is not empty, so a final
      terminator never yields an extra empty line; and a "\r" ending is
      never followed by an empty line ended by "\n", because "\r\n" is one
      terminator, not two. */
  ghost predicate WellFormed(lines: seq<Line>)
  {
    && (forall k :: 0 <= k < |lines| ==> BreakFree(lines[k].text))
    && (forall k :: 0 <= k < |lines| ==>
          IsTerminator(lines[k].ending) || (k == |lines| - 1 && lines[k].ending == "" && lines[k].text != ""))
    && (forall k :: 0 <= k < |lines| - 1 && lines[k].ending == "\r" ==>
          lines[k + 1].text != "" || lines[k + 1].ending != "\n")
  }

  lemma {:induction false} LinesFromWellFormed(s: string, i: nat)
    requires i <= |s|
    ensures WellFormed(LinesFrom(s, i))
    decreases |s| - i
  {
    if i < |s| {
      var k := BreakFrom(s, i);
      var m := k + EndLength(s, k);
      LinesFromStep(s, i, k, m, Line(s[i..k], s[k..m]));
      LinesFromWellFormed(s, m);
      assert BreakFree(s[i..k]) by {
        BreakFromSkipsNoBreak(s, i);
        assert forall j :: 0 <= j < k - i ==> s[i..k][j] == s[i + j];
      }
      if k < |s| {
        assert m == k + 1 ==> s[k..m] == [s[k]];
        assert m == k + 2 ==> s[k..m] == "\r\n";
        assert IsTerminator(s[k..m]);
        if s[k..m] == "\r" && m < |s| {
          var k2 := BreakFrom(s, m);
          var m2 := k2 + EndLength(s, k2);
          LinesFromStep(s, m, k2, m2, Line(s[m..k2], s[k2..m2]));
          assert s[m] != '\n';
          assert k2 == m ==> s[k2..m2][0] == s[m];
        }
      } else {
        assert LinesFrom(s, m) == [] && s[k..m] == [];
      }
    }
  }

  /** `str.splitlines()`: the line texts without their terminators. */
  function SplitLines(s: string): (r: seq<string>)
    ensures forall k :: 0 <= k < |r| ==> BreakFree(r[k])
  {
    LinesFromWellFormed(s, 0);
    Texts(Lines(s))
  }

  lemma SliceSplit(s: string, i: nat, k: nat, m: nat)
    requires i <= k <= m <= |s|
    ensures s[i..] == s[i..k] + s[k..m] + s[m..]
  {
  }

  lemma FlattenCons(l: Line, rest: seq<Line>)
    ensures Flatten([l] + rest) == l.text + l.ending + Flatten(rest)
  {
    assert ([l] + rest)[1..] == rest;
  }

  lemma {:induction false} LinesFromRebuild(s: string, i: nat)
    requires i <= |s|
    ensures Flatten(LinesFrom(s, i)) == s[i..]
    decreases |s| - i
  {
    if i < |s| {
      var k := BreakFrom(s, i);
      var m := k + EndLength(s, k);
      LinesFromStep(s, i, k, m, Line(s[i..k], s[k..m]));
      LinesFromRebuild(s, m);
      FlattenCons(Line(s[i..k], s[k..m]), LinesFrom(s, m));
      SliceSplit(s, i, k, m);
    } else {
      assert LinesFrom(s, i) == [];
    }
  }

  /** Nothing is lost or reordered: the lines and their terminators, laid
      end to end, are the input. */
  lemma LinesRebuildInput(s: string)
    ensures Flatten(Lines(s)) == s
  {
    LinesFromRebuild(s, 0);
  }

  lemma TextsCons(l: Line, rest: seq<Line>)
    ensures Texts([l] + rest) == [l.text] + Texts(rest)
  {
    assert ([l] + rest)[1..] == rest;
  }

  lemma SliceOfConcat(p: string, q: string, a: nat, b: nat)
    requires a <= b <= |q|
    ensures (p + q)[|p| + a..|p| + b] == q[a..b]
  {
  }

  lemma EndLengthShift(p: string, q: string, k: nat)
    requires k <= |q|
    ensures EndLength(p + q, |p| + k) == EndLength(q, k)
  {
    var s := p + q;
    assert k < |q| ==> s[|p| + k] == q[k];
    assert k + 1 < |q| ==> s[|p| + k + 1] == q[k + 1];
  }

  /** Text placed after a prefix `p` splits as it does on its own. */
  lemma {:induction false} LinesFromShift(p: string, q: string, i: nat)
    requires i <= |q|
    ensures LinesFrom(p + q, |p| + i) == LinesFrom(q, i)
    decreases |q| - i
  {
    var s := p + q;
    if i < |q| {
      var k := BreakFrom(q, i);
      var m := k + EndLength(q, k);
      BreakFromShift(p, q, i);
      EndLengthShift(p, q, k);
      SliceOfConcat(p, q, i, k);
      SliceOfConcat(p, q, k, m);
      var line := Line(q[i..k], q[k..m]);
      LinesFromStep(s, |p| + i, |p| + k, |p| + m, line);
      LinesFromStep(q, i, k, m, line);
      LinesFromShift(p, q, m);
    } else {
      assert |p| + i == |s|;
    }
  }

  /** Every line followed by "\n": the file a line-per-URL editor writes. */
  function Terminated(lines: seq<string>): string
  {
    if |lines| == 0 then [] else lines[0] + "\n" + Terminated(lines[1..])
  }

  /** A boundary-free line followed by "\n" comes off the front whole. */
  lemma LinesOfTerminatedHead(l: string, q: string)
    requires BreakFree(l)
    ensures Lines(l + "\n" + q) == [Line(l, "\n")] + Lines(q)
  {
    var s := l + "\n" + q;
    assert s == l + ("\n" + q) == (l + "\n") + q;
    BreakFromAcross(l, "\n" + q, 0);
    assert EndLength(s, |l|) == 1;
    assert s[0..|l|] == l && s[|l|..|l| + 1] == "\n";
    LinesFromStep(s, 0, |l|, |l| + 1, Line(s[0..|l|], s[|l|..|l| + 1]));
    LinesFromShift(l + "\n", q, 0);
  }

  /** "\r\n" after a boundary-free line is one terminator: no empty line
      appears between the two halves of the pair. */
  lemma LinesOfCrLfHead(l: string, q: string)
    requires BreakFree(l)
    ensures Lines(l + "\r\n" + q) == [Line(l, "\r\n")] + Lines(q)
  {
    var s := l + "\r\n" + q;
    assert s == l + ("\r\n" + q) == (l + "\r\n") + q;
    BreakFromAcross(l, "\r\n" + q, 0);
    assert EndLength(s, |l|) == 2;
    assert s[0..|l|] == l && s[|l|..|l| + 2] == "\r\n";
    LinesFromStep(s, 0, |l|, |l| + 2, Line(l, "\r\n"));
    LinesFromShift(l + "\r\n", q, 0);
  }

  /** Round trip: splitting a file of "\n"-terminated lines returns the
      lines, empty ones included, in their order. */
  lemma {:induction false} SplitTerminatedRoundTrip(lines: seq<string>)
    requires forall k :: 0 <= k < |lines| ==> BreakFree(lines[k])
    ensures SplitLines(Terminated(lines)) == lines
    decreases |lines|
  {
    if |lines| > 0 {
      var q := Terminated(lines[1..]);
      LinesOfTerminatedHead(lines[0], q);
      TextsCons(Line(lines[0], "\n"), Lines(q));
      SplitTerminatedRoundTrip(lines[1..]);
      assert lines == [lines[0]] + lines[1..];
    }
  }

  /** Appending a terminator to text whose last character is not a
      boundary changes only the ending of the last line. */
  lemma {:induction false} LinesFromAppend(s: string, c: char, i: nat)
    requires i < |s| && !IsLineBreak(s[|s| - 1]) && IsLineBreak(c)
    ensures Texts(LinesFrom(s + [c], i)) == Texts(LinesFrom(s, i))
    decreases |s| - i
  {
    var t := s + [c];
    var k := BreakFrom(s, i);
    var m := k + EndLength(s, k);
    BreakFromAppend(s, c, i);
    assert t[i..k] == s[i..k];
    LinesFromStep(s, i, k, m, Line(s[i..k], s[k..m]));
    if k == |s| {
      assert EndLength(t, k) == 1;
      LinesFromStep(t, i, k, k + 1, Line(t[i..k], t[k..k + 1]));
      assert LinesFrom(t, k + 1) == [] && LinesFrom(s, k) == [];
      TextsCons(Line(s[i..k], t[k..k + 1]), []);
      TextsCons(Line(s[i..k], s[k..m]), []);
    } else {
      assert m == k + 2 ==> IsLineBreak(s[k + 1]);
      assert m < |s|;
      assert EndLength(t, k) == m - k;
      assert t[k..m] == s[k..m];
      LinesFromStep(t, i, k, m, Line(t[i..k], t[k..m]));
      LinesFromAppend(s, c, m);
      TextsCons(Line(s[i..k], s[k..m]), LinesFrom(t, m));
      TextsCons(Line(s[i..k], s[k..m]), LinesFrom(s, m));
    }
  }

  /** A terminator after a last line that lacks one adds no element. */
  lemma FinalTerminatorAddsNothing(s: string, c: char)
    requires |s| > 0 && !IsLineBreak(s[|s| - 1])
    requires IsLineBreak(c)
    ensures SplitLines(s + [c]) == SplitLines(s)
  {
    LinesFromAppend(s, c, 0);
  }

  /** A blank line between two URLs becomes an empty entry. */
  lemma InteriorBlankLine(a: string, b: string)
    requires BreakFree(a) && BreakFree(b) && b != ""
    ensures SplitLines(a + "\n\n" + b) == [a, "", b]
  {
    var s := a + "\n\n" + b;
    assert Terminated([a, "", b]) == s + "\n" by {
      assert Terminated([b]) == b + "\n";
      assert [a, "", b][1..] == ["", b] && ["", b][1..] == [b];
    }
    SplitTerminatedRoundTrip([a, "", b]);
    FinalTerminatorAddsNothing(s, '\n');
  }
}
