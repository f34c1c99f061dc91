/**
 * The subtitle text normaliser of opensubtitles-crawler.py
 * (`process_srt_content_blocking` with `TIME_PATTERN` and `INDEX_PATTERN`):
 * split into lines, drop time-range lines and index lines, strip the rest,
 * join them with `\n`, and replace `\n\n` by `\n` in one pass.
 */
module SrtNormalizer {
  import opened Text

  /** `\d{2}:\d{2}:\d{2},\d{3}`, an SRT time stamp, at the start of `s`. */
  predicate StartsWithTimestamp(s: string) {
    |s| >= 12
    && IsDigit(s[0]) && IsDigit(s[1]) && s[2] == ':'
    && IsDigit(s[3]) && IsDigit(s[4]) && s[5] == ':'
    && IsDigit(s[6]) && IsDigit(s[7]) && s[8] == ','
    && IsDigit(s[9]) && IsDigit(s[10]) && IsDigit(s[11])
  }

  /** The index just past the white-space run that starts at `from`. */
  function SkipSpaces(s: string, from: nat): (k: nat)
    requires from <= |s|
    ensures from <= k <= |s|
  {
    from + LeadingSpaces(s[from..])
  }

  /** The arrow `-->` at index `i`. */
  predicate ArrowAt(s: string, i: nat) {
    i + 3 <= |s| && s[i] == '-' && s[i + 1] == '-' && s[i + 2] == '>'
  }

  /**
   * `TIME_PATTERN.match(line)`: a time range at the very start of the line;
   * whatever follows it does not matter. Each `\s*` takes the whole run of
   * white space in front of it, since backing off would leave white space
   * where `-->` or a digit must follow.
   */
  predicate StartsWithTimeRange(line: string) {
    StartsWithTimestamp(line)
    && var i := SkipSpaces(line, 12);
    ArrowAt(line, i) && StartsWithTimestamp(line[SkipSpaces(line, i + 3)..])
  }

  /** `INDEX_PATTERN.match(line)`: the line is one or more digits and nothing else. */
  predicate IsIndexLine(line: string) {
    line != [] && AllDigits(line)
  }

  /** The filter of the comprehension, tested on the line before it is stripped. */
  predicate Dropped(line: string) {
    StartsWithTimeRange(line) || IsIndexLine(line)
  }

  /** The list comprehension: every line that is not dropped, stripped, in order. */
  function CleanLines(lines: seq<string>): (cleaned: seq<string>)
    ensures |cleaned| <= |lines|
  {
    if lines == [] then []
    else
      var last := lines[|lines| - 1];
      CleanLines(lines[..|lines| - 1]) + (if Dropped(last) then [] else [Strip(last)])
  }

  /** `process_srt_content_blocking` on already decoded text. */
  function Normalize(text: string): string
  {
    ReplaceAll(Join(CleanLines(SplitLines(text)), "\n"), "\n\n", "\n")
  }

  /** Appending a line appends its cleaned form, if the filter keeps it. */
  lemma CleanLinesAppend(lines: seq<string>, line: string)
    ensures CleanLines(lines + [line]) == CleanLines(lines) + (if Dropped(line) then [] else [Strip(line)])
  {
    assert (lines + [line])[..|lines|] == lines;
  }

  /** The indices of the lines that the filter keeps, in increasing order. */
  ghost function Kept(lines: seq<string>): (idx: seq<nat>)
    ensures forall k :: 0 <= k < |idx| ==> idx[k] < |lines| && !Dropped(lines[idx[k]])
    ensures forall k, m :: 0 <= k < m < |idx| ==> idx[k] < idx[m]
  {
    if lines == [] then []
    else
      var n := |lines| - 1;
      var front := Kept(lines[..n]);
      assert forall k :: 0 <= k < |front| ==> lines[..n][front[k]] == lines[front[k]];
      if Dropped(lines[n]) then front else front + [n]
  }

  /** No line that the filter keeps is missing from `Kept`. */
  lemma {:induction false} KeptComplete(lines: seq<string>)
    ensures forall j :: 0 <= j < |lines| && !Dropped(lines[j]) ==> j in Kept(lines)
  {
    if lines != [] {
      var n := |lines| - 1;
      var init := lines[..n];
      KeptComplete(init);
      var front := Kept(init);
      assert Kept(lines) == if Dropped(lines[n]) then front else front + [n];
      forall j | 0 <= j < |lines| && !Dropped(lines[j]) ensures j in Kept(lines) {
        if j < n {
          assert init[j] == lines[j];
        }
      }
    }
  }

  /**
   * Every cleaned line is the stripped form of a kept input line, the kept
   * lines appear in input order, and every line the filter keeps is there.
   */
  lemma {:induction false} CleanLinesAreKeptLines(lines: seq<string>)
    ensures |CleanLines(lines)| == |Kept(lines)|
    ensures forall k :: 0 <= k < |Kept(lines)| ==> CleanLines(lines)[k] == Strip(lines[Kept(lines)[k]])
  {
    if lines != [] {
      var n := |lines| - 1;
      var init := lines[..n];
      CleanLinesAreKeptLines(init);
      var front := Kept(init);
      var cleaned := CleanLines(init);
      assert Kept(lines) == if Dropped(lines[n]) then front else front + [n];
      assert CleanLines(lines) == cleaned + (if Dropped(lines[n]) then [] else [Strip(lines[n])]);
      forall k | 0 <= k < |Kept(lines)|
        ensures CleanLines(lines)[k] == Strip(lines[Kept(lines)[k]])
      {
        if k < |front| {
          assert Kept(lines)[k] == front[k];
          assert CleanLines(lines)[k] == cleaned[k];
          assert init[front[k]] == lines[front[k]];
        }
      }
    }
  }

  /** `k` newline characters. */
  function Newlines(k: nat): (s: string)
    ensures |s| == k && forall i :: 0 <= i < k ==> s[i] == '\n'
  {
    if k == 0 then "" else "\n" + Newlines(k - 1)
  }

  /** One `\n` in front of anything but a newline passes through the final replace. */
  lemma SingleNewline(t: string)
    requires t != [] && t[0] != '\n'
    ensures ReplaceAll("\n" + t, "\n\n", "\n") == "\n" + ReplaceAll(t, "\n\n", "\n")
  {
    var s := "\n" + t;
    assert s[..2] != "\n\n" by { assert s[..2][1] == t[0]; }
    assert s[1..] == t;
  }

  /**
   * The final `replace("\n\n", "\n")` is one left-to-right pass: a run of `k`
   * newlines becomes ceil(k/2) newlines, so `\n\n` can remain.
   */
  lemma {:induction false} CollapseNewlineRun(k: nat, t: string)
    requires t == [] || t[0] != '\n'
    ensures ReplaceAll(Newlines(k) + t, "\n\n", "\n") == Newlines((k + 1) / 2) + ReplaceAll(t, "\n\n", "\n")
  {
    var r := ReplaceAll(t, "\n\n", "\n");
    if k == 0 {
      assert Newlines(k) + t == t;
    } else if k == 1 {
      assert Newlines(1) == "\n" + "" == "\n";
      if t == [] {
        assert Newlines(k) + t == "\n";
        assert "\n" + r == "\n";
      } else {
        SingleNewline(t);
      }
    } else {
      var n := Newlines(k - 2);
      assert Newlines(k) == "\n" + ("\n" + n);
      AppendAssoc("\n", "\n", n);
      assert "\n" + "\n" == "\n\n";
      AppendAssoc("\n\n", n, t);
      ReplaceFront("\n\n", n + t, "\n");
      CollapseNewlineRun(k - 2, t);
      assert Newlines((k + 1) / 2) == "\n" + Newlines((k - 1) / 2);
      AppendAssoc("\n", Newlines((k - 1) / 2), r);
    }
  }

  /** Characters other than newlines pass through the final replace unchanged. */
  lemma CollapseKeepsOther(a: string, t: string)
    requires '\n' !in a
    ensures ReplaceAll(a + t, "\n\n", "\n") == a + ReplaceAll(t, "\n\n", "\n")
  {
    ReplacePassThrough(a, t, "\n\n", "\n");
  }

  /** The shape `TIME_PATTERN` describes, with the arrow at `i` and the second stamp at `j`. */
  predicate TimeRangeShape(line: string, i: int, j: int) {
    12 <= i && i + 3 <= j <= |line| && StartsWithTimestamp(line)
    && AllSpace(line[12..i]) && ArrowAt(line, i)
    && AllSpace(line[i + 3..j]) && StartsWithTimestamp(line[j..])
  }

  /** A white-space run followed by a non-space character is exactly what `SkipSpaces` skips. */
  lemma SkipSpacesRun(s: string, from: nat, to: nat)
    requires from <= to <= |s| && AllSpace(s[from..to]) && (to == |s| || !IsSpace(s[to]))
    ensures SkipSpaces(s, from) == to
  {
    var rest := s[from..];
    var n := to - from;
    assert forall p :: 0 <= p < n ==> IsSpace(rest[p]) by {
      forall p | 0 <= p < n ensures IsSpace(rest[p]) {
        assert rest[p] == s[from..to][p];
      }
    }
    if to < |s| {
      assert rest[n] == s[to];
    }
  }

  /** What `SkipSpaces` skips is white space. */
  lemma SkipSpacesIsSpace(s: string, from: nat)
    requires from <= |s|
    ensures AllSpace(s[from..SkipSpaces(s, from)])
  {
    var run := s[from..SkipSpaces(s, from)];
    forall p | 0 <= p < |run| ensures IsSpace(run[p]) {
      assert run[p] == s[from..][p];
    }
  }

  /** `SkipSpaces` stops at the end or at a character that is not white space. */
  lemma SkipSpacesStops(s: string, from: nat)
    requires from <= |s|
    ensures SkipSpaces(s, from) == |s| || !IsSpace(s[SkipSpaces(s, from)])
  {
    var n := LeadingSpaces(s[from..]);
    if n < |s[from..]| {
      assert s[from..][n] == s[from + n];
    }
  }

  /** The greedy scan finds the shape, with the arrow and stamp where it looked for them. */
  lemma TimeRangeHasShape(line: string)
    requires StartsWithTimeRange(line)
    ensures TimeRangeShape(line, SkipSpaces(line, 12), SkipSpaces(line, SkipSpaces(line, 12) + 3))
  {
    var i := SkipSpaces(line, 12);
    SkipSpacesIsSpace(line, 12);
    SkipSpacesIsSpace(line, i + 3);
  }

  /** Any placement of the shape is the one the greedy scan finds. */
  lemma ShapeIsTimeRange(line: string, i: int, j: int)
    requires TimeRangeShape(line, i, j)
    ensures StartsWithTimeRange(line)
  {
    SkipSpacesRun(line, 12, i);
    if j < |line| {
      assert IsDigit(line[j..][0]);
      assert line[j..][0] == line[j];
    }
    SkipSpacesRun(line, i + 3, j);
  }

  /**
   * Reference reading of `TIME_PATTERN.match`: a time stamp, a white-space
   * run, the arrow, another white-space run and a time stamp, in that order
   * at the start of the line. The greedy scan accepts exactly these lines.
   */
  lemma TimeRangeAsPattern(line: string)
    ensures StartsWithTimeRange(line) <==> exists i, j :: TimeRangeShape(line, i, j)
  {
    if StartsWithTimeRange(line) {
      TimeRangeHasShape(line);
    }
    if exists i, j :: TimeRangeShape(line, i, j) {
      var i, j :| TimeRangeShape(line, i, j);
      ShapeIsTimeRange(line, i, j);
    }
  }

  /** A cue timing line `<stamp> --> <stamp>` starts with a time range, whatever follows it. */
  lemma CueLineDropped(a: string, b: string)
    requires |a| == 12 && StartsWithTimestamp(a) && StartsWithTimestamp(b)
    ensures StartsWithTimeRange(a + " --> " + b) && Dropped(a + " --> " + b)
  {
    var t := a + " --> " + b;
    assert t[..12] == a;
    assert StartsWithTimestamp(t);
    assert t[12..13] == " ";
    SkipSpacesRun(t, 12, 13);
    assert t[16..17] == " ";
    SkipSpacesRun(t, 16, 17);
    assert t[17..] == b;
  }

  /** Cleaning distributes over concatenation of line lists. */
  lemma {:induction false} CleanLinesConcat(a: seq<string>, b: seq<string>)
    ensures CleanLines(a + b) == CleanLines(a) + CleanLines(b)
    decreases |b|
  {
    if b == [] {
      assert a + b == a;
    } else {
      var init := b[..|b| - 1];
      var last := b[|b| - 1];
      assert b == init + [last];
      assert a + b == (a + init) + [last];
      CleanLinesAppend(a + init, last);
      CleanLinesAppend(init, last);
      CleanLinesConcat(a, init);
    }
  }
}

/**
 * What the normaliser does to a well-formed SRT file: each cue is an index
 * line, a timing line and its text lines, and cues are separated by one
 * empty line.
 */
module SrtFiles {
  import opened Text
  import opened SrtNormalizer

  /** A cue of an SRT file: its index line, its timing line and its text lines. */
  datatype Cue = Cue(index: string, timing: string, text: seq<string>)

  /** A line of cue text that the normaliser keeps as it is. */
  predicate PlainTextLine(line: string) {
    line != [] && NoLineBreak(line) && !Dropped(line) && Strip(line) == line
  }

  /** Every line is a plain text line. */
  predicate PlainText(lines: seq<string>)
    decreases |lines|
  {
    lines == [] || (PlainTextLine(lines[0]) && PlainText(lines[1..]))
  }

  /**
   * A cue as SRT files write it: a number, a timing line, and at least one
   * text line. The timing line need only be one that the filter drops, which
   * `<stamp> --> <stamp>` is (`CueLineDropped`).
   */
  predicate PlainCue(c: Cue) {
    IsIndexLine(c.index) && Dropped(c.timing) && NoLineBreak(c.timing)
    && |c.text| >= 1 && PlainText(c.text)
  }

  /** Every cue is a plain cue. */
  predicate PlainCues(cues: seq<Cue>)
    decreases |cues|
  {
    cues == [] || (PlainCue(cues[0]) && PlainCues(cues[1..]))
  }

  function CueLines(c: Cue): seq<string> {
    [c.index, c.timing] + c.text
  }

  /** The lines of an SRT file: the cues, with an empty line between consecutive cues. */
  function SrtLines(cues: seq<Cue>): seq<string>
    decreases |cues|
  {
    if |cues| == 0 then []
    else if |cues| == 1 then CueLines(cues[0])
    else (CueLines(cues[0]) + [""]) + SrtLines(cues[1..])
  }

  /** All text lines of the cues, in order. */
  function CueTexts(cues: seq<Cue>): seq<string>
    decreases |cues|
  {
    if cues == [] then [] else cues[0].text + CueTexts(cues[1..])
  }

  /** The text lines of the cues, with an empty line between consecutive cues. */
  function Spaced(cues: seq<Cue>): seq<string>
    decreases |cues|
  {
    if |cues| == 0 then []
    else if |cues| == 1 then cues[0].text
    else cues[0].text + ([""] + Spaced(cues[1..]))
  }

  lemma {:induction false} PlainTextInit(lines: seq<string>)
    requires PlainText(lines) && lines != []
    ensures PlainText(lines[..|lines| - 1]) && PlainTextLine(lines[|lines| - 1])
    decreases |lines|
  {
    if |lines| == 1 {
      assert lines[..0] == [];
    } else {
      PlainTextInit(lines[1..]);
      assert lines[1..][..|lines| - 2] == lines[..|lines| - 1][1..];
      assert lines[1..][|lines| - 2] == lines[|lines| - 1];
    }
  }

  lemma {:induction false} CleanPlainLines(lines: seq<string>)
    requires PlainText(lines)
    ensures CleanLines(lines) == lines
    decreases |lines|
  {
    if lines != [] {
      var n := |lines| - 1;
      assert lines == lines[..n] + [lines[n]];
      PlainTextInit(lines);
      CleanLinesAppend(lines[..n], lines[n]);
      CleanPlainLines(lines[..n]);
    }
  }

  /** The index line and the timing line of a cue go, its text lines stay. */
  lemma CleanPlainCue(c: Cue)
    requires PlainCue(c)
    ensures CleanLines(CueLines(c)) == c.text
  {
    CleanLinesConcat([c.index, c.timing], c.text);
    CleanLinesAppend([c.index], c.timing);
    CleanLinesAppend([], c.index);
    assert [] + [c.index] == [c.index];
    assert [c.index] + [c.timing] == [c.index, c.timing];
    CleanPlainLines(c.text);
  }

  lemma {:induction false} CleanSrtLines(cues: seq<Cue>)
    requires PlainCues(cues)
    ensures CleanLines(SrtLines(cues)) == Spaced(cues)
    decreases |cues|
  {
    if |cues| == 1 {
      CleanPlainCue(cues[0]);
    } else if |cues| > 1 {
      var head := CueLines(cues[0]);
      var rest := cues[1..];
      CleanPlainCue(cues[0]);
      CleanSrtLines(rest);
      CleanLinesConcat(head + [""], SrtLines(rest));
      CleanLinesAppend(head, "");
      assert !Dropped("");
      StripTrimmed("");
      AppendAssoc(cues[0].text, [""], Spaced(rest));
    }
  }

  lemma {:induction false} NoBreakInPlainText(lines: seq<string>)
    requires PlainText(lines)
    ensures Unbroken(lines)
    decreases |lines|
  {
    if lines != [] {
      NoBreakInPlainText(lines[1..]);
      assert Unbroken([lines[0]]);
      UnbrokenConcat([lines[0]], lines[1..]);
      assert [lines[0]] + lines[1..] == lines;
    }
  }

  lemma CueHeadUnbroken(c: Cue)
    requires IsIndexLine(c.index) && NoLineBreak(c.timing)
    ensures Unbroken([c.index, c.timing])
  {
  }

  lemma {:induction false} SrtLinesUnbroken(cues: seq<Cue>)
    requires PlainCues(cues)
    ensures Unbroken(SrtLines(cues))
    decreases |cues|
  {
    if |cues| >= 1 {
      var c := cues[0];
      NoBreakInPlainText(c.text);
      CueHeadUnbroken(c);
      UnbrokenConcat([c.index, c.timing], c.text);
      if |cues| > 1 {
        SrtLinesUnbroken(cues[1..]);
        assert Unbroken([""]);
        UnbrokenConcat(CueLines(c), [""]);
        UnbrokenConcat(CueLines(c) + [""], SrtLines(cues[1..]));
      }
    }
  }

  /** Non-empty lines without `\n`: joined by `\n`, they hold no `\n\n`. */
  predicate SingleLines(lines: seq<string>)
    decreases |lines|
  {
    lines == [] || (lines[0] != [] && '\n' !in lines[0] && SingleLines(lines[1..]))
  }

  /** Every cue has at least one text line, and its text lines are single lines. */
  predicate SingleTexts(cues: seq<Cue>)
    decreases |cues|
  {
    cues == [] || (|cues[0].text| >= 1 && SingleLines(cues[0].text) && SingleTexts(cues[1..]))
  }

  lemma {:induction false} PlainTextSingleLines(lines: seq<string>)
    requires PlainText(lines)
    ensures SingleLines(lines)
    decreases |lines|
  {
    if lines != [] {
      assert '\n' !in lines[0];
      PlainTextSingleLines(lines[1..]);
    }
  }

  lemma {:induction false} PlainCuesSingleTexts(cues: seq<Cue>)
    requires PlainCues(cues)
    ensures SingleTexts(cues)
    decreases |cues|
  {
    if cues != [] {
      PlainTextSingleLines(cues[0].text);
      PlainCuesSingleTexts(cues[1..]);
    }
  }

  /** The lines of one cue, joined, pass through the final replace unchanged. */
  lemma {:induction false} JoinedTextPassesThrough(lines: seq<string>, t: string)
    requires |lines| >= 1 && SingleLines(lines)
    ensures ReplaceAll(Join(lines, "\n") + t, "\n\n", "\n") == Join(lines, "\n") + ReplaceAll(t, "\n\n", "\n")
    decreases |lines|
  {
    if |lines| == 1 {
      CollapseKeepsOther(lines[0], t);
    } else {
      var l := lines[0];
      var r := Join(lines[1..], "\n");
      assert Join(lines, "\n") == l + "\n" + r;
      AppendAssoc("\n", r, t);
      AppendAssoc(l, "\n" + r, t);
      AppendAssoc(l, "\n", r);
      CollapseKeepsOther(l, "\n" + (r + t));
      JoinStart(lines[1..], "\n");
      var m := lines[1..][0];
      assert m[0] in m;
      assert (r + t)[0] == r[0] == m[0];
      SingleNewline(r + t);
      JoinedTextPassesThrough(lines[1..], t);
      var rt := ReplaceAll(t, "\n\n", "\n");
      AppendAssoc("\n", r, rt);
      AppendAssoc(l, "\n" + r, rt);
    }
  }

  /** Between the texts of two consecutive cues the join puts `\n\n`. */
  lemma JoinSpacedStep(cues: seq<Cue>)
    requires |cues| > 1 && |cues[0].text| >= 1 && |Spaced(cues[1..])| >= 1
    ensures Join(Spaced(cues), "\n") == Join(cues[0].text, "\n") + ("\n\n" + Join(Spaced(cues[1..]), "\n"))
  {
    var text := cues[0].text;
    var spaced := Spaced(cues[1..]);
    var jt := Join(text, "\n");
    var j := Join(spaced, "\n");
    JoinConcat(text, [""] + spaced, "\n");
    JoinConcat([""], spaced, "\n");
    assert Join([""], "\n") + "\n" == "\n";
    AppendAssoc(jt, "\n", "\n" + j);
    AppendAssoc("\n", "\n", j);
    assert "\n" + "\n" == "\n\n";
  }

  lemma {:induction false} CollapseSpaced(cues: seq<Cue>)
    requires SingleTexts(cues)
    ensures ReplaceAll(Join(Spaced(cues), "\n"), "\n\n", "\n") == Join(CueTexts(cues), "\n")
    decreases |cues|
  {
    if |cues| == 1 {
      var text := cues[0].text;
      assert CueTexts(cues) == text + [];
      assert text + [] == text;
      JoinedTextPassesThrough(text, "");
      assert Join(text, "\n") + "" == Join(text, "\n");
    } else if |cues| > 1 {
      var text := cues[0].text;
      var rest := cues[1..];
      var texts := CueTexts(rest);
      assert |texts| >= 1 && |Spaced(rest)| >= 1;
      var jt := Join(text, "\n");
      var j := Join(Spaced(rest), "\n");
      JoinSpacedStep(cues);
      JoinedTextPassesThrough(text, "\n\n" + j);
      ReplaceFront("\n\n", j, "\n");
      CollapseSpaced(rest);
      JoinConcat(text, texts, "\n");
      AppendAssoc(jt, "\n", Join(texts, "\n"));
    }
  }

  /**
   * On an SRT file of plain cues, each line followed by `\n`, the normaliser
   * returns the text lines of the cues, in order, one per line.
   */
  lemma NormalizePlainSrt(cues: seq<Cue>)
    requires PlainCues(cues)
    ensures Normalize(Terminated(SrtLines(cues))) == Join(CueTexts(cues), "\n")
  {
    SrtLinesUnbroken(cues);
    SplitLinesOfTerminated(SrtLines(cues));
    CleanSrtLines(cues);
    PlainCuesSingleTexts(cues);
    CollapseSpaced(cues);
  }

  /** `k` empty lines. */
  function Blanks(k: nat): (lines: seq<string>)
    ensures |lines| == k
  {
    if k == 0 then [] else [""] + Blanks(k - 1)
  }

  lemma {:induction false} BlanksUnbroken(k: nat)
    ensures Unbroken(Blanks(k))
  {
    if k > 0 {
      BlanksUnbroken(k - 1);
      assert Unbroken([""]);
      UnbrokenConcat([""], Blanks(k - 1));
    }
  }

  lemma {:induction false} CleanBlanks(k: nat)
    ensures CleanLines(Blanks(k)) == Blanks(k)
  {
    if k > 0 {
      CleanBlanks(k - 1);
      CleanLinesConcat([""], Blanks(k - 1));
      CleanLinesAppend([], "");
      assert [] + [""] == [""];
      assert !Dropped("");
      StripTrimmed("");
    }
  }

  lemma {:induction false} JoinBlanks(k: nat, b: string)
    ensures Join(Blanks(k) + [b], "\n") == Newlines(k) + b
  {
    if k > 0 {
      JoinBlanks(k - 1, b);
      AppendAssoc([""], Blanks(k - 1), [b]);
      var rest := Blanks(k - 1) + [b];
      assert Join([""] + rest, "\n") == "" + "\n" + Join(rest, "\n") by {
        assert ([""] + rest)[1..] == rest;
      }
      assert "" + "\n" == "\n";
      AppendAssoc("\n", Newlines(k - 1), b);
    }
  }

  /** A text line, `k` empty lines and a text line are split and cleaned back into themselves. */
  lemma CleanBlankRun(a: string, b: string, k: nat)
    requires PlainTextLine(a) && PlainTextLine(b)
    ensures CleanLines(SplitLines(Terminated([a] + (Blanks(k) + [b])))) == [a] + (Blanks(k) + [b])
  {
    assert Unbroken([a]) && Unbroken([b]);
    BlanksUnbroken(k);
    UnbrokenConcat(Blanks(k), [b]);
    UnbrokenConcat([a], Blanks(k) + [b]);
    SplitLinesOfTerminated([a] + (Blanks(k) + [b]));
    assert PlainText([a]) && PlainText([b]);
    CleanPlainLines([a]);
    CleanPlainLines([b]);
    CleanBlanks(k);
    CleanLinesConcat(Blanks(k), [b]);
    CleanLinesConcat([a], Blanks(k) + [b]);
  }

  /** Joined, the run of empty lines is a run of `k + 1` newlines, which the replace pass halves. */
  lemma CollapseBlankRun(a: string, b: string, k: nat)
    requires '\n' !in a && b != [] && '\n' !in b
    ensures ReplaceAll(Join([a] + (Blanks(k) + [b]), "\n"), "\n\n", "\n") == a + (Newlines((k + 2) / 2) + b)
  {
    var lines := [a] + (Blanks(k) + [b]);
    JoinBlanks(k, b);
    assert Join(lines, "\n") == a + "\n" + (Newlines(k) + b) by {
      assert lines[1..] == Blanks(k) + [b];
    }
    AppendAssoc(a, "\n", Newlines(k) + b);
    AppendAssoc("\n", Newlines(k), b);
    assert "\n" + Newlines(k) == Newlines(k + 1);
    CollapseKeepsOther(a, Newlines(k + 1) + b);
    assert b[0] in b;
    CollapseNewlineRun(k + 1, b);
    CollapseKeepsOther(b, "");
    assert b + "" == b;
  }

  /**
   * `k` empty lines between two text lines become a run of `k + 1`
   * newlines, which the single replace pass halves, rounding up: from two
   * empty lines on, a blank line survives.
   */
  lemma BlankLinesHalved(a: string, b: string, k: nat)
    requires PlainTextLine(a) && PlainTextLine(b)
    ensures Normalize(Terminated([a] + Blanks(k) + [b])) == a + (Newlines((k + 2) / 2) + b)
  {
    AppendAssoc([a], Blanks(k), [b]);
    CleanBlankRun(a, b, k);
    assert '\n' !in a && '\n' !in b;
    CollapseBlankRun(a, b, k);
  }
}

/** Worked inputs of the normaliser, each evaluated through the general lemmas. */
module SrtNormalizerExamples {
  import opened Text
  import opened SrtNormalizer
  import opened SrtFiles

  /** The time stamps of the worked examples have the SRT layout. */
  lemma SampleStamps()
    ensures StartsWithTimestamp("00:00:01,000") && StartsWithTimestamp("00:00:02,000")
    ensures StartsWithTimestamp("00:00:03,000") && StartsWithTimestamp("00:00:04,000")
  {
  }

  lemma PlainWord(w: string)
    requires w == "Hello" || w == "World"
    ensures PlainTextLine(w)
  {
    StripTrimmed(w);
  }

  /** A cue with an index line, a timing line and one plain text line is a plain cue. */
  lemma SampleCue(index: string, timing: string, w: string)
    requires index == "1" || index == "2"
    requires Dropped(timing) && NoLineBreak(timing)
    requires w == "Hello" || w == "World"
    ensures PlainCue(Cue(index, timing, [w]))
  {
    PlainWord(w);
    assert [w][1..] == [];
  }

  lemma TwoCues(c1: Cue, c2: Cue)
    requires PlainCue(c1) && PlainCue(c2)
    ensures PlainCues([c1, c2])
    ensures SrtLines([c1, c2]) == CueLines(c1) + [""] + CueLines(c2)
    ensures CueTexts([c1, c2]) == c1.text + c2.text
  {
    assert [c1, c2][1..] == [c2];
    assert [c2][1..] == [];
    assert CueTexts([c2]) == c2.text + CueTexts([]);
    assert c2.text + [] == c2.text;
  }

  /**
   * A subtitle file with two cues, each line followed by `\n`, normalises
   * to the two texts on two lines; `t1` and `t2` are timing lines such as
   * `00:00:01,000 --> 00:00:02,000` (see `CueLineDropped`).
   */
  lemma TwoCueExample(t1: string, t2: string, h: string, w: string)
    requires StartsWithTimeRange(t1) && NoLineBreak(t1)
    requires StartsWithTimeRange(t2) && NoLineBreak(t2)
    requires h == "Hello" && w == "World"
    ensures Normalize(Terminated(["1", t1, h, "", "2", t2, w])) == h + "\n" + w
  {
    var c1 := Cue("1", t1, [h]);
    var c2 := Cue("2", t2, [w]);
    SampleCue("1", t1, h);
    SampleCue("2", t2, w);
    TwoCues(c1, c2);
    AppendDisplays("1", t1, h, "", "2", t2, w);
    NormalizePlainSrt([c1, c2]);
    JoinConcat([h], [w], "\n");
  }

  /** A subtitle file with one cue normalises to its text. */
  lemma OneCueExample(t1: string, h: string)
    requires StartsWithTimeRange(t1) && NoLineBreak(t1)
    requires h == "Hello"
    ensures Normalize(Terminated(["1", t1, h])) == h
  {
    var c1 := Cue("1", t1, [h]);
    SampleCue("1", t1, h);
    assert [c1][1..] == [];
    assert SrtLines([c1]) == ["1", t1, h];
    assert CueTexts([c1]) == [h] + [];
    assert [h] + [] == [h];
    NormalizePlainSrt([c1]);
  }

  /** Both tests look at the unstripped line, so `" 12"` survives as `"12"`. */
  lemma IndexTestBeforeStrip(text: string)
    requires text == " 12"
    ensures Normalize(text) == "12"
  {
    SplitLinesSingle(text);
    assert !IsDigit(text[0]);
    assert LeadingSpaces(text) == 1;
    assert text[1..] == "12";
    assert TrailingSpaces("12") == 0;
    assert Strip(text) == "12";
    CleanLinesAppend([], text);
    assert [] + [text] == [text];
    CollapseKeepsOther("12", "");
    assert "12" + "" == "12";
  }

  /** A line of digits left by the first pass is an index line to the second. */
  lemma DigitsDropped(text: string)
    requires text == "12"
    ensures Normalize(text) == ""
  {
    SplitLinesSingle(text);
    CleanLinesAppend([], text);
    assert [] + [text] == [text];
  }

  /** A second pass drops the index line the first pass let through: normalising is not idempotent. */
  lemma NotIdempotent(text: string)
    requires text == " 12"
    ensures Normalize(Normalize(text)) != Normalize(text)
  {
    IndexTestBeforeStrip(text);
    DigitsDropped(Normalize(text));
  }

  /** Two time stamps around ` --> ` make a timing line without line breaks. */
  lemma TimingLine(a: string, b: string)
    requires |a| == 12 && StartsWithTimestamp(a) && StartsWithTimestamp(b)
    requires NoLineBreak(a) && NoLineBreak(b)
    ensures StartsWithTimeRange(a + " --> " + b) && NoLineBreak(a + " --> " + b)
  {
    CueLineDropped(a, b);
    StampUnbroken(" --> ");
    NoLineBreakConcat(a, " --> ");
    NoLineBreakConcat(a + " --> ", b);
  }

  /** The stamps and the arrow of the literal example have no line breaks. */
  lemma StampUnbroken(s: string)
    requires s == "00:00:01,000" || s == "00:00:02,000" || s == "00:00:03,000" || s == "00:00:04,000" || s == " --> "
    ensures NoLineBreak(s)
  {
  }

  /** The two texts of the literal example on two lines. */
  lemma TwoLines(h: string, w: string)
    requires h == "Hello" && w == "World"
    ensures h + "\n" + w == "Hello\nWorld"
  {
  }

  /**
   * The two-cue file `1`, `00:00:01,000 --> 00:00:02,000`, `Hello`, ``,
   * `2`, `00:00:03,000 --> 00:00:04,000`, `World`, each line followed by
   * `\n`, normalises to `Hello\nWorld`.
   */
  lemma TwoCueFile(a1: string, b1: string, a2: string, b2: string)
    requires a1 == "00:00:01,000" && b1 == "00:00:02,000" && a2 == "00:00:03,000" && b2 == "00:00:04,000"
    ensures Normalize(Terminated(["1", a1 + " --> " + b1, "Hello", "", "2", a2 + " --> " + b2, "World"])) == "Hello\nWorld"
  {
    SampleStamps();
    StampUnbroken(a1);
    StampUnbroken(b1);
    StampUnbroken(a2);
    StampUnbroken(b2);
    TimingLine(a1, b1);
    TimingLine(a2, b2);
    var t1, t2 := a1 + " --> " + b1, a2 + " --> " + b2;
    TwoCueExample(t1, t2, "Hello", "World");
    TwoLines("Hello", "World");
  }
}
