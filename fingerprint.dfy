/**
 * The file-name fingerprint of opensubtitles.py: the release year is the
 * first stand-alone four-digit token of the `.srt` name, and the title is
 * what a fixed chain of regex deletions leaves of the name, with `-`, `_`
 * and `.` turned into spaces, white-space runs collapsed and the ends
 * stripped. The regex classes are the ASCII ones of `Text`.
 */
module Fingerprint {
  import opened Options
  import opened Text

  /** `\b` at index `p`: a word character on exactly one side of it. */
  predicate WordBoundary(s: string, p: nat)
    requires p <= |s|
  {
    (p > 0 && IsWordChar(s[p - 1])) != (p < |s| && IsWordChar(s[p]))
  }

  /** `\b\d{4}\b` matches at index `p`. */
  predicate YearAt(s: string, p: nat) {
    p + 4 <= |s| && WordBoundary(s, p)
    && IsDigit(s[p]) && IsDigit(s[p + 1]) && IsDigit(s[p + 2]) && IsDigit(s[p + 3])
    && WordBoundary(s, p + 4)
  }

  /** `re.search(r"\b\d{4}\b", s)` started at index `p`: the first index from `p` on where it matches. */
  function FindYear(s: string, p: nat): (r: Option<nat>)
    decreases |s| - p
    ensures r.Some? ==> p <= r.value && YearAt(s, r.value)
    ensures r.Some? ==> forall q :: p <= q < r.value ==> !YearAt(s, q)
    ensures r.None? ==> forall q :: p <= q ==> !YearAt(s, q)
  {
    if p + 4 > |s| then None
    else if YearAt(s, p) then Some(p)
    else FindYear(s, p + 1)
  }

  /**
   * `year_match.group(0) if year_match else ""`: empty when no stand-alone
   * four-digit token exists, and otherwise the first such token, verbatim.
   */
  function Year(s: string): (y: string)
    ensures y == "" || (|y| == 4 && AllDigits(y))
    ensures y == "" <==> forall p: nat :: !YearAt(s, p)
    ensures y != "" ==> exists p: nat :: YearAt(s, p) && s[p..p + 4] == y && forall q :: 0 <= q < p ==> !YearAt(s, q)
  {
    match FindYear(s, 0)
    case None => ""
    case Some(p) => s[p..p + 4]
  }

  /** The four deletions of the title chain, in the order they run. */
  datatype Deletion = YearToken | Episode | Resolution | SourceTag

  /** `S\d{2}E\d{2}`, case-sensitive, at index `p`. */
  predicate EpisodeAt(s: string, p: nat) {
    p + 6 <= |s| && s[p] == 'S' && IsDigit(s[p + 1]) && IsDigit(s[p + 2])
    && s[p + 3] == 'E' && IsDigit(s[p + 4]) && IsDigit(s[p + 5])
  }

  /** Number of ASCII digits at the start of `s`. */
  function LeadingDigits(s: string): (n: nat)
    ensures n <= |s|
    ensures forall i :: 0 <= i < n ==> IsDigit(s[i])
    ensures n < |s| ==> !IsDigit(s[n])
  {
    if s != [] && IsDigit(s[0]) then 1 + LeadingDigits(s[1..]) else 0
  }

  /** A three-character alternative of `re.I` at index `p`; `a`, `b`, `c` are lower case. */
  predicate Tag3At(s: string, p: nat, a: char, b: char, c: char) {
    p + 3 <= |s| && Lower(s[p]) == a && Lower(s[p + 1]) == b && Lower(s[p + 2]) == c
  }

  /** A four-character alternative of `re.I` at index `p`; `a` to `d` are lower case. */
  predicate Tag4At(s: string, p: nat, a: char, b: char, c: char, d: char) {
    p + 4 <= |s| && Lower(s[p]) == a && Lower(s[p + 1]) == b && Lower(s[p + 2]) == c
    && Lower(s[p + 3]) == d
  }

  /** Length of the match of `WEB|HDTV|x264|x265|MiNX|HIN` (with `re.I`) at `p`, or 0. */
  function TagLength(s: string, p: nat): (n: nat)
    ensures n == 0 || n == 3 || n == 4
    ensures n > 0 ==> p + n <= |s|
  {
    if Tag3At(s, p, 'w', 'e', 'b') then 3
    else if Tag4At(s, p, 'h', 'd', 't', 'v') then 4
    else if Tag4At(s, p, 'x', '2', '6', '4') then 4
    else if Tag4At(s, p, 'x', '2', '6', '5') then 4
    else if Tag4At(s, p, 'm', 'i', 'n', 'x') then 4
    else if Tag3At(s, p, 'h', 'i', 'n') then 3
    else 0
  }

  /** Length of the match of deletion `d` at index `p` of `s`, or 0 when it does not match there. */
  function MatchLen(d: Deletion, s: string, p: nat): (n: nat)
    requires p <= |s|
    ensures p + n <= |s|
    ensures d == YearToken ==> (n > 0 <==> YearAt(s, p))
    ensures d == Episode ==> (n > 0 <==> EpisodeAt(s, p))
  {
    match d
    case YearToken => if YearAt(s, p) then 4 else 0
    case Episode => if EpisodeAt(s, p) then 6 else 0
    case Resolution =>
      var r := LeadingDigits(s[p..]);
      if r > 0 && p + r < |s| && s[p + r] == 'p' then r + 1 else 0
    case SourceTag => TagLength(s, p)
  }

  /** Every entry of a match table ends inside the string. */
  predicate Fits(m: seq<nat>) {
    forall p :: 0 <= p < |m| ==> p + m[p] <= |m|
  }

  /** The match table of `d` on `s`: per index, the length of the match that starts there (0 for none). */
  function Matches(d: Deletion, s: string): (m: seq<nat>)
    ensures |m| == |s| && Fits(m)
    ensures forall p :: 0 <= p < |s| ==> m[p] == MatchLen(d, s, p)
  {
    seq(|s|, p requires 0 <= p < |s| => MatchLen(d, s, p))
  }

  /**
   * The scan of `re.sub(pattern, "", s)` from index `p` on, over the match
   * table `m`: the leftmost match is cut out and the scan resumes right
   * after it, so matches never overlap and are found in the original text.
   */
  function Cut(s: string, m: seq<nat>, p: nat): (r: string)
    requires |m| == |s| && Fits(m) && p <= |s|
    decreases |s| - p
  {
    if p == |s| then ""
    else if m[p] > 0 then Cut(s, m, p + m[p])
    else [s[p]] + Cut(s, m, p + 1)
  }

  /** `re.sub(pattern, "", s)` for deletion `d`; word boundaries are judged in the whole of `s`. */
  function Delete(d: Deletion, s: string): string
  {
    Cut(s, Matches(d, s), 0)
  }

  /** A suffix with no match anywhere comes through the scan whole. */
  lemma {:induction false} CutNothing(s: string, m: seq<nat>, p: nat)
    requires |m| == |s| && Fits(m) && p <= |s|
    requires forall q :: p <= q < |s| ==> m[q] == 0
    ensures Cut(s, m, p) == s[p..]
    decreases |s| - p
  {
    if p < |s| {
      CutNothing(s, m, p + 1);
      assert s[p..] == [s[p]] + s[p + 1..];
    }
  }

  /** The scan never lengthens the text, and a match anywhere in the suffix makes it strictly shorter. */
  lemma {:induction false} CutShortens(s: string, m: seq<nat>, p: nat)
    requires |m| == |s| && Fits(m) && p <= |s|
    ensures |Cut(s, m, p)| <= |s| - p
    ensures (exists q :: p <= q < |s| && m[q] > 0) ==> |Cut(s, m, p)| < |s| - p
    decreases |s| - p
  {
    if p < |s| {
      if m[p] > 0 {
        CutShortens(s, m, p + m[p]);
      } else {
        CutShortens(s, m, p + 1);
        if exists q :: p <= q < |s| && m[q] > 0 {
          var q :| p <= q < |s| && m[q] > 0;
          assert p + 1 <= q;
        }
      }
    }
  }

  /** The deletion changes the name exactly when the pattern matches somewhere in it. */
  lemma DeleteUnchanged(d: Deletion, s: string)
    ensures Delete(d, s) == s <==> forall q :: 0 <= q < |s| ==> MatchLen(d, s, q) == 0
  {
    var m := Matches(d, s);
    CutShortens(s, m, 0);
    if forall q :: 0 <= q < |s| ==> MatchLen(d, s, q) == 0 {
      CutNothing(s, m, 0);
    } else {
      var q :| 0 <= q < |s| && MatchLen(d, s, q) > 0;
      assert m[q] > 0;
    }
  }

  /** A digit run stops at a character that is not a digit. */
  lemma {:induction false} LeadingDigitsStop(x: string, c: char, y: string)
    requires !IsDigit(c)
    ensures LeadingDigits(x + [c] + y) == LeadingDigits(x)
  {
    if x == [] {
      assert (x + [c] + y)[0] == c;
    } else {
      assert (x + [c] + y)[1..] == x[1..] + [c] + y;
      LeadingDigitsStop(x[1..], c, y);
    }
  }

  /** Before a non-word character `c`, a match is judged as if the text ended at `c`. */
  lemma MatchLenLeft(d: Deletion, a: string, c: char, b: string, p: nat)
    requires !IsWordChar(c) && p < |a|
    ensures MatchLen(d, a + [c] + b, p) == MatchLen(d, a, p)
  {
    var s := a + [c] + b;
    assert forall i :: 0 <= i < |a| ==> s[i] == a[i];
    assert s[|a|] == c;
    if d == Resolution {
      assert s[p..] == a[p..] + [c] + b;
      LeadingDigitsStop(a[p..], c, b);
    }
  }

  /** No pattern starts at a non-word character. */
  lemma MatchLenAtSeparator(d: Deletion, a: string, c: char, b: string)
    requires !IsWordChar(c)
    ensures MatchLen(d, a + [c] + b, |a|) == 0
  {
    var s := a + [c] + b;
    assert s[|a|] == c;
    if d == Resolution {
      assert s[|a|..][0] == c;
    }
  }

  /** After a non-word character `c`, a match is judged as if the text started after `c`. */
  lemma MatchLenRight(d: Deletion, a: string, c: char, b: string, p: nat)
    requires !IsWordChar(c) && |a| < p <= |a| + 1 + |b|
    ensures MatchLen(d, a + [c] + b, p) == MatchLen(d, b, p - |a| - 1)
  {
    var s := a + [c] + b;
    assert forall i :: 0 <= i < |b| ==> s[|a| + 1 + i] == b[i];
    assert s[|a|] == c;
    if d == Resolution {
      assert s[p..] == b[p - |a| - 1..];
    }
  }

  /** The match table splits at a non-word character, which matches nothing. */
  lemma MatchesSplit(d: Deletion, a: string, c: char, b: string)
    requires !IsWordChar(c)
    ensures Matches(d, a + [c] + b) == Matches(d, a) + [0] + Matches(d, b)
  {
    var m := Matches(d, a + [c] + b);
    var n := Matches(d, a) + [0] + Matches(d, b);
    forall p | 0 <= p < |m| ensures m[p] == n[p] {
      if p < |a| {
        MatchLenLeft(d, a, c, b, p);
      } else if p == |a| {
        MatchLenAtSeparator(d, a, c, b);
      } else {
        MatchLenRight(d, a, c, b, p);
      }
    }
  }

  /** Two tables that fit, around a 0, fit. */
  lemma FitsSplit(ma: seq<nat>, mb: seq<nat>)
    requires Fits(ma) && Fits(mb)
    ensures Fits(ma + [0] + mb)
  {
    var m := ma + [0] + mb;
    forall p | 0 <= p < |m| ensures p + m[p] <= |m| {
      if p > |ma| {
        assert m[p] == mb[p - |ma| - 1];
      }
    }
  }

  /** The scan after the separator is the scan of the text after it. */
  lemma {:induction false} CutRight(a: string, c: char, b: string, ma: seq<nat>, mb: seq<nat>, p: nat)
    requires |ma| == |a| && |mb| == |b| && Fits(mb) && Fits(ma + [0] + mb)
    requires |a| < p <= |a| + 1 + |b|
    ensures Cut(a + [c] + b, ma + [0] + mb, p) == Cut(b, mb, p - |a| - 1)
    decreases |a| + 1 + |b| - p
  {
    var s, m := a + [c] + b, ma + [0] + mb;
    var q := p - |a| - 1;
    if p < |s| {
      assert m[p] == mb[q];
      if m[p] > 0 {
        CutRight(a, c, b, ma, mb, p + m[p]);
      } else {
        assert s[p] == b[q];
        CutRight(a, c, b, ma, mb, p + 1);
      }
    }
  }

  /** The scan up to the separator is the scan of the text before it, then the separator, then the rest. */
  lemma {:induction false} CutLeft(a: string, c: char, b: string, ma: seq<nat>, mb: seq<nat>, p: nat)
    requires |ma| == |a| && |mb| == |b| && Fits(ma) && Fits(mb) && Fits(ma + [0] + mb)
    requires p <= |a|
    ensures Cut(a + [c] + b, ma + [0] + mb, p) == Cut(a, ma, p) + [c] + Cut(b, mb, 0)
    decreases |a| - p
  {
    var s, m := a + [c] + b, ma + [0] + mb;
    var rest := Cut(b, mb, 0);
    if p == |a| {
      assert m[p] == 0 && s[p] == c;
      CutRight(a, c, b, ma, mb, p + 1);
    } else {
      assert m[p] == ma[p];
      if m[p] > 0 {
        CutLeft(a, c, b, ma, mb, p + m[p]);
      } else {
        assert s[p] == a[p];
        CutLeft(a, c, b, ma, mb, p + 1);
        AppendAssoc([a[p]], Cut(a, ma, p + 1) + [c], rest);
        AppendAssoc([a[p]], Cut(a, ma, p + 1), [c]);
      }
    }
  }

  /** A non-word character splits a deletion in two: nothing matches across it. */
  lemma DeleteSplit(d: Deletion, a: string, c: char, b: string)
    requires !IsWordChar(c)
    ensures Delete(d, a + [c] + b) == Delete(d, a) + [c] + Delete(d, b)
  {
    var ma, mb := Matches(d, a), Matches(d, b);
    MatchesSplit(d, a, c, b);
    FitsSplit(ma, mb);
    CutLeft(a, c, b, ma, mb, 0);
  }

  /** The four deletions of opensubtitles.py, in their order. */
  function Deleted(name: string): string
  {
    Delete(SourceTag, Delete(Resolution, Delete(Episode, Delete(YearToken, name))))
  }

  /** The whole chain of deletions splits at a non-word character. */
  lemma DeletedSplit(a: string, c: char, b: string)
    requires !IsWordChar(c)
    ensures Deleted(a + [c] + b) == Deleted(a) + [c] + Deleted(b)
  {
    DeleteSplit(YearToken, a, c, b);
    var a1, b1 := Delete(YearToken, a), Delete(YearToken, b);
    DeleteSplit(Episode, a1, c, b1);
    var a2, b2 := Delete(Episode, a1), Delete(Episode, b1);
    DeleteSplit(Resolution, a2, c, b2);
    var a3, b3 := Delete(Resolution, a2), Delete(Resolution, b2);
    DeleteSplit(SourceTag, a3, c, b3);
  }

  /** The characters of the class `[-_.]`. */
  predicate IsSeparator(c: char) {
    c == '-' || c == '_' || c == '.'
  }

  /** `re.sub(r"[-_.]", " ", s)`: each separator becomes a space. */
  function Respace(s: string): string
    decreases |s|
  {
    if s == [] then ""
    else [if IsSeparator(s[0]) then ' ' else s[0]] + Respace(s[1..])
  }

  /** Respacing keeps the length, turns each separator into a space and keeps every other character. */
  lemma {:induction false} RespaceMaps(s: string)
    ensures |Respace(s)| == |s|
    ensures forall i :: 0 <= i < |s| ==> !IsSeparator(Respace(s)[i])
    ensures forall i :: 0 <= i < |s| && !IsSeparator(s[i]) ==> Respace(s)[i] == s[i]
    ensures forall i :: 0 <= i < |s| && IsSeparator(s[i]) ==> Respace(s)[i] == ' '
  {
    if s != [] {
      RespaceMaps(s[1..]);
      assert forall i :: 1 <= i < |s| ==> Respace(s)[i] == Respace(s[1..])[i - 1];
    }
  }

  /**
   * `re.sub(r"\s+", " ", s)`: every maximal white-space run becomes one
   * space. The result has no other white space and no two white-space
   * characters in a row, and each of its other characters comes from `s`.
   */
  function CollapseSpaces(s: string): (r: string)
    decreases |s|
    ensures s != [] ==> r != [] && (!IsSpace(s[0]) ==> r[0] == s[0])
    ensures forall i :: 0 <= i < |r| && IsSpace(r[i]) ==> r[i] == ' '
    ensures forall i :: 0 <= i < |r| - 1 ==> !IsSpace(r[i]) || !IsSpace(r[i + 1])
    ensures forall i :: 0 <= i < |r| && !IsSpace(r[i]) ==> r[i] in s
  {
    if s == [] then ""
    else if IsSpace(s[0]) then " " + CollapseSpaces(s[LeadingSpaces(s)..])
    else [s[0]] + CollapseSpaces(s[1..])
  }

  /** The title: the deletions, then separators to spaces, then white space collapsed and stripped. */
  function Title(name: string): string
  {
    Strip(CollapseSpaces(Respace(Deleted(name))))
  }

  /** No white space but plain spaces, never two in a row, and none of `-`, `_` and `.`. */
  predicate Tidy(t: string) {
    (forall i :: 0 <= i < |t| - 1 ==> !IsSpace(t[i]) || !IsSpace(t[i + 1]))
    && (forall i :: 0 <= i < |t| && IsSpace(t[i]) ==> t[i] == ' ')
    && (forall i :: 0 <= i < |t| ==> !IsSeparator(t[i]))
  }

  /** Collapsing the white space of a respaced name leaves it tidy. */
  lemma CollapsedIsTidy(s: string)
    ensures Tidy(CollapseSpaces(Respace(s)))
  {
    var spaced := Respace(s);
    var c := CollapseSpaces(spaced);
    RespaceMaps(s);
    forall i | 0 <= i < |c| ensures !IsSeparator(c[i]) {
      if !IsSpace(c[i]) {
        assert c[i] in spaced;
      }
    }
  }

  /** Every slice of a tidy string is tidy. */
  lemma TidySlice(c: string, a: nat, b: nat)
    requires a <= b <= |c| && Tidy(c)
    ensures Tidy(c[a..b])
  {
    var t := c[a..b];
    assert forall i :: 0 <= i < |t| ==> t[i] == c[a + i];
  }

  /**
   * The title has no white space at either end, no two white-space
   * characters in a row, no white space but plain spaces, and none of
   * `-`, `_` and `.`.
   */
  lemma TitleShape(name: string)
    ensures var t := Title(name); (t == [] || (!IsSpace(t[0]) && !IsSpace(t[|t| - 1]))) && Tidy(t)
  {
    var c := CollapseSpaces(Respace(Deleted(name)));
    CollapsedIsTidy(Deleted(name));
    StripSpec(c);
    var a, b :| 0 <= a <= b <= |c| && Strip(c) == c[a..b] && AllSpace(c[..a]) && AllSpace(c[b..]);
    TidySlice(c, a, b);
  }

  /** A stand-alone four-digit token with none before it is the year. */
  lemma YearIsFirst(s: string, p: nat)
    requires YearAt(s, p) && forall q :: 0 <= q < p ==> !YearAt(s, q)
    ensures Year(s) == s[p..p + 4]
  {
    var r := FindYear(s, 0);
    assert r.Some?;
    assert r.value == p;
  }

  /** Text without digits has no year. */
  lemma NoDigitsNoYear(s: string)
    requires forall i :: 0 <= i < |s| ==> !IsDigit(s[i])
    ensures Year(s) == ""
  {
  }

  /** Around a non-word character `c`, a year token lies wholly on one side of it. */
  lemma YearAtSplit(a: string, c: char, b: string)
    requires !IsWordChar(c)
    ensures forall q :: 0 <= q < |a| ==> (YearAt(a + [c] + b, q) <==> YearAt(a, q))
    ensures !YearAt(a + [c] + b, |a|)
    ensures forall q :: |a| < q <= |a| + 1 + |b| ==> (YearAt(a + [c] + b, q) <==> YearAt(b, q - |a| - 1))
  {
    forall q | 0 <= q < |a| ensures YearAt(a + [c] + b, q) <==> YearAt(a, q) {
      MatchLenLeft(YearToken, a, c, b, q);
    }
    MatchLenAtSeparator(YearToken, a, c, b);
    forall q | |a| < q <= |a| + 1 + |b| ensures YearAt(a + [c] + b, q) <==> YearAt(b, q - |a| - 1) {
      MatchLenRight(YearToken, a, c, b, q);
    }
  }

  /** A year before a non-word character is the year of the whole. */
  lemma YearSplitLeft(a: string, c: char, b: string)
    requires !IsWordChar(c) && Year(a) != ""
    ensures Year(a + [c] + b) == Year(a)
  {
    var s := a + [c] + b;
    YearAtSplit(a, c, b);
    var p := FindYear(a, 0).value;
    YearIsFirst(s, p);
    assert s[p..p + 4] == a[p..p + 4];
  }

  /** With no year anywhere the year is empty. */
  lemma NoYear(s: string)
    requires forall q: nat :: !YearAt(s, q)
    ensures Year(s) == ""
  {
  }

  /** With no year before a non-word character, the year of the whole is the year after it. */
  lemma YearSplitRight(a: string, c: char, b: string)
    requires !IsWordChar(c) && Year(a) == ""
    ensures Year(a + [c] + b) == Year(b)
  {
    YearAtSplit(a, c, b);
    var s := a + [c] + b;
    assert forall q :: 0 <= q <= |a| ==> !YearAt(s, q);
    if Year(b) == "" {
      YearSplitRightNone(a, c, b);
    } else {
      YearSplitRightFound(a, c, b, FindYear(b, 0).value);
    }
  }

  /** The first year after the character is the first year of the whole. */
  lemma YearSplitRightFound(a: string, c: char, b: string, p: nat)
    requires !IsWordChar(c)
    requires forall q :: 0 <= q <= |a| ==> !YearAt(a + [c] + b, q)
    requires YearAt(b, p) && forall q :: 0 <= q < p ==> !YearAt(b, q)
    ensures Year(a + [c] + b) == b[p..p + 4]
  {
    var s := a + [c] + b;
    YearAtSplit(a, c, b);
    var at := |a| + 1 + p;
    assert YearAt(s, at);
    assert forall q :: 0 <= q < at ==> !YearAt(s, q);
    YearIsFirst(s, at);
    assert s[at..at + 4] == b[p..p + 4];
  }

  /** No year on either side of the character leaves no year in the whole. */
  lemma YearSplitRightNone(a: string, c: char, b: string)
    requires !IsWordChar(c)
    requires forall q :: 0 <= q <= |a| ==> !YearAt(a + [c] + b, q)
    requires Year(b) == ""
    ensures Year(a + [c] + b) == ""
  {
    var s := a + [c] + b;
    YearAtSplit(a, c, b);
    assert forall q :: |a| < q <= |s| ==> !YearAt(s, q);
    NoYear(s);
  }

  /**
   * Across a non-word character the year search reads the text before it
   * first: the year of the whole is the year of that part, or else the
   * year of the part after the character.
   */
  lemma YearSplit(a: string, c: char, b: string)
    requires !IsWordChar(c)
    ensures Year(a + [c] + b) == if Year(a) != "" then Year(a) else Year(b)
  {
    if Year(a) != "" {
      YearSplitLeft(a, c, b);
    } else {
      YearSplitRight(a, c, b);
    }
  }

  /** The deletions other than the source tags leave text without digits alone. */
  lemma Undigited(d: Deletion, t: string)
    requires d != SourceTag && forall i :: 0 <= i < |t| ==> !IsDigit(t[i])
    ensures Delete(d, t) == t
  {
    forall q | 0 <= q < |t| ensures MatchLen(d, t, q) == 0 {
      if d == Resolution {
        assert t[q..][0] == t[q];
      }
    }
    DeleteUnchanged(d, t);
  }

  /** Respacing works character by character. */
  lemma {:induction false} RespaceAppend(x: string, y: string)
    ensures Respace(x + y) == Respace(x) + Respace(y)
  {
    if x == [] {
      assert x + y == y;
    } else {
      assert (x + y)[1..] == x[1..] + y;
      RespaceAppend(x[1..], y);
      AppendAssoc([if IsSeparator(x[0]) then ' ' else x[0]], Respace(x[1..]), Respace(y));
    }
  }

  /** A separator between two texts becomes a space between their respaced forms. */
  lemma RespaceSplit(a: string, c: char, b: string)
    requires IsSeparator(c)
    ensures Respace(a + [c] + b) == Respace(a) + [' '] + Respace(b)
  {
    RespaceAppend(a + [c], b);
    RespaceAppend(a, [c]);
    assert Respace([c]) == [' '] + Respace([c][1..]);
  }

  /** Text without separators is left alone by the respacing. */
  lemma {:induction false} RespaceKeeps(t: string)
    requires forall i :: 0 <= i < |t| ==> !IsSeparator(t[i])
    ensures Respace(t) == t
  {
    if t != [] {
      RespaceKeeps(t[1..]);
      assert [t[0]] + t[1..] == t;
    }
  }

  /** A word without white space comes through the collapse unchanged. */
  lemma {:induction false} CollapseWord(w: string, r: string)
    requires forall i :: 0 <= i < |w| ==> !IsSpace(w[i])
    ensures CollapseSpaces(w + r) == w + CollapseSpaces(r)
  {
    if w != [] {
      assert (w + r)[0] == w[0];
      assert (w + r)[1..] == w[1..] + r;
      assert CollapseSpaces(w + r) == [w[0]] + CollapseSpaces(w[1..] + r);
      CollapseWord(w[1..], r);
      AppendAssoc([w[0]], w[1..], CollapseSpaces(r));
      assert [w[0]] + w[1..] == w;
    } else {
      assert w + r == r;
    }
  }

  /** A whole white-space run becomes one space. */
  lemma CollapseRun(run: string, r: string)
    requires run != [] && AllSpace(run) && (r == [] || !IsSpace(r[0]))
    ensures CollapseSpaces(run + r) == " " + CollapseSpaces(r)
  {
    var s := run + r;
    assert s[0] == run[0];
    assert forall i :: 0 <= i < |run| ==> s[i] == run[i];
    if r != [] {
      assert s[|run|] == r[0];
    }
    assert LeadingSpaces(s) == |run|;
    assert s[|run|..] == r;
  }
}

/** Worked examples of the fingerprint, each derived from the general lemmas. */
module FingerprintExamples {
  import opened Text
  import opened Fingerprint

  /** No source tag starts anywhere in the letters-only parts of the example name. */
  lemma NoTagIn(t: string)
    requires t == "Movie" || t == "Name" || t == "srt"
    ensures Delete(SourceTag, t) == t
  {
    forall q | 0 <= q < |t| ensures MatchLen(SourceTag, t, q) == 0 {
    }
    DeleteUnchanged(SourceTag, t);
  }

  /** The letters-only parts of the example name pass every deletion. */
  lemma PlainPart(t: string)
    requires t == "Movie" || t == "Name" || t == "srt"
    ensures Deleted(t) == t
  {
    assert forall i :: 0 <= i < |t| ==> !IsDigit(t[i]);
    Undigited(YearToken, t);
    Undigited(Episode, t);
    Undigited(Resolution, t);
    NoTagIn(t);
  }

  /** The rest of every deletion of an empty text is empty. */
  lemma DeleteEmpty(d: Deletion)
    ensures Delete(d, "") == ""
  {
  }

  /** The stand-alone year `2019` is the first deletion's match. */
  lemma YearPart(t: string)
    requires t == "2019"
    ensures Deleted(t) == ""
  {
    var m := Matches(YearToken, t);
    assert m[0] == 4;
    assert Cut(t, m, 4) == "";
    DeleteEmpty(Episode);
    DeleteEmpty(Resolution);
    DeleteEmpty(SourceTag);
  }

  /** `1080p` is no year (a word character follows the digits) but a whole resolution. */
  lemma ResolutionPart(t: string)
    requires t == "1080p"
    ensures Deleted(t) == ""
  {
    forall q | 0 <= q < |t| ensures MatchLen(YearToken, t, q) == 0 && MatchLen(Episode, t, q) == 0 {
    }
    DeleteUnchanged(YearToken, t);
    DeleteUnchanged(Episode, t);
    var m := Matches(Resolution, t);
    assert t[0..] == t;
    assert LeadingDigits(t) == 4;
    assert m[0] == 5;
    assert Cut(t, m, 5) == "";
    DeleteEmpty(SourceTag);
  }

  /** `WEB` is a source tag. */
  lemma WebPart(t: string)
    requires t == "WEB"
    ensures Deleted(t) == ""
  {
    assert forall i :: 0 <= i < |t| ==> !IsDigit(t[i]);
    Undigited(YearToken, t);
    Undigited(Episode, t);
    Undigited(Resolution, t);
    var m := Matches(SourceTag, t);
    assert m[0] == 3;
    assert Cut(t, m, 3) == "";
  }

  /** `x264` is a source tag; its digits are no year and no resolution. */
  lemma EncodingPart(t: string)
    requires t == "x264"
    ensures Deleted(t) == ""
  {
    forall q | 0 <= q < |t| ensures MatchLen(YearToken, t, q) == 0 && MatchLen(Episode, t, q) == 0 {
    }
    DeleteUnchanged(YearToken, t);
    DeleteUnchanged(Episode, t);
    forall q | 0 <= q < |t| ensures MatchLen(Resolution, t, q) == 0 {
      if q > 0 {
        assert LeadingDigits(t[q..]) == 4 - q;
      }
    }
    DeleteUnchanged(Resolution, t);
    var m := Matches(SourceTag, t);
    assert m[0] == 4;
    assert Cut(t, m, 4) == "";
  }

  /** The example release name, cut at its dots. */
  lemma ReleaseParts(name: string)
    requires name == "Movie.Name.2019.1080p.WEB.x264.srt"
    ensures name == "Movie" + ['.'] + ("Name" + ['.'] + ("2019" + ['.'] + ("1080p" + ['.'] + ("WEB" + ['.'] + ("x264" + ['.'] + "srt")))))
  {
  }

  /** The deletions leave the two words and the extension, with every dot still in place. */
  lemma ReleaseDeleted(name: string)
    requires name == "Movie.Name.2019.1080p.WEB.x264.srt"
    ensures Deleted(name) == "Movie" + ['.'] + ("Name" + ['.'] + ("" + ['.'] + ("" + ['.'] + ("" + ['.'] + ("" + ['.'] + "srt")))))
  {
    ReleaseParts(name);
    var t6 := "x264" + ['.'] + "srt";
    DeletedSplit("x264", '.', "srt");
    EncodingPart("x264");
    PlainPart("srt");
    var t5 := "WEB" + ['.'] + t6;
    DeletedSplit("WEB", '.', t6);
    WebPart("WEB");
    var t4 := "1080p" + ['.'] + t5;
    DeletedSplit("1080p", '.', t5);
    ResolutionPart("1080p");
    var t3 := "2019" + ['.'] + t4;
    DeletedSplit("2019", '.', t4);
    YearPart("2019");
    var t2 := "Name" + ['.'] + t3;
    DeletedSplit("Name", '.', t3);
    PlainPart("Name");
    DeletedSplit("Movie", '.', t2);
    PlainPart("Movie");
  }

  /** The dots of what the deletions leave become spaces. */
  lemma WordsRespaced(w1: string, w2: string, w3: string)
    requires forall i :: 0 <= i < |w1| ==> !IsSeparator(w1[i])
    requires forall i :: 0 <= i < |w2| ==> !IsSeparator(w2[i])
    requires forall i :: 0 <= i < |w3| ==> !IsSeparator(w3[i])
    ensures Respace(w1 + ['.'] + (w2 + ['.'] + ("" + ['.'] + ("" + ['.'] + ("" + ['.'] + ("" + ['.'] + w3))))))
      == w1 + ([' '] + (w2 + ([' ', ' ', ' ', ' ', ' '] + w3)))
  {
    RespaceKeeps(w3);
    RespaceKeeps(w2);
    RespaceKeeps(w1);
    assert Respace("") == "";
    var r5 := "" + ['.'] + w3;
    RespaceSplit("", '.', w3);
    assert Respace(r5) == [' '] + w3;
    var r4 := "" + ['.'] + r5;
    RespaceSplit("", '.', r5);
    assert Respace(r4) == [' '] + ([' '] + w3);
    var r3 := "" + ['.'] + r4;
    RespaceSplit("", '.', r4);
    assert Respace(r3) == [' '] + ([' '] + ([' '] + w3));
    var r2 := "" + ['.'] + r3;
    RespaceSplit("", '.', r3);
    assert Respace(r2) == [' '] + ([' '] + ([' '] + ([' '] + w3)));
    assert [' '] + Respace(r2) == [' ', ' ', ' ', ' ', ' '] + w3 by {
      FiveInFront(' ', w3);
    }
    var r1 := w2 + ['.'] + r2;
    RespaceSplit(w2, '.', r2);
    assert Respace(r1) == w2 + [' '] + Respace(r2);
    RespaceSplit(w1, '.', r1);
    assert Respace(w1 + ['.'] + r1) == w1 + [' '] + Respace(r1);
    FiveInFront(' ', w3);
    AppendAssoc(w2, [' '], Respace(r2));
    AppendAssoc(w1, [' '], Respace(r1));
  }

  /** Five copies of `x` put in front of `s` one at a time. */
  lemma FiveInFront<T>(x: T, s: seq<T>)
    ensures [x] + ([x] + ([x] + ([x] + ([x] + s)))) == [x, x, x, x, x] + s
  {
  }

  /** The run of five spaces becomes one. */
  lemma WordsCollapsed(w1: string, w2: string, w3: string)
    requires forall i :: 0 <= i < |w1| ==> !IsSpace(w1[i])
    requires forall i :: 0 <= i < |w2| ==> !IsSpace(w2[i])
    requires forall i :: 0 <= i < |w3| ==> !IsSpace(w3[i])
    requires w2 != [] && w3 != []
    ensures CollapseSpaces(w1 + ([' '] + (w2 + ([' ', ' ', ' ', ' ', ' '] + w3)))) == w1 + ([' '] + (w2 + ([' '] + w3)))
  {
    var run: string := [' ', ' ', ' ', ' ', ' '];
    CollapseWord(w3, "");
    assert w3 + "" == w3;
    CollapseRun(run, w3);
    CollapseWord(w2, run + w3);
    CollapseRun([' '], w2 + (run + w3));
    CollapseWord(w1, [' '] + (w2 + (run + w3)));
  }

  /** Three words joined by the dots that the deletions leave take the shape of a title. */
  lemma WordsTitle(name: string, w1: string, w2: string, w3: string)
    requires Deleted(name) == w1 + ['.'] + (w2 + ['.'] + ("" + ['.'] + ("" + ['.'] + ("" + ['.'] + ("" + ['.'] + w3)))))
    requires forall i :: 0 <= i < |w1| ==> !IsSeparator(w1[i]) && !IsSpace(w1[i])
    requires forall i :: 0 <= i < |w2| ==> !IsSeparator(w2[i]) && !IsSpace(w2[i])
    requires forall i :: 0 <= i < |w3| ==> !IsSeparator(w3[i]) && !IsSpace(w3[i])
    requires w1 != [] && w2 != [] && w3 != []
    ensures Title(name) == w1 + ([' '] + (w2 + ([' '] + w3)))
  {
    WordsRespaced(w1, w2, w3);
    WordsCollapsed(w1, w2, w3);
    var t := w1 + ([' '] + (w2 + ([' '] + w3)));
    assert t[0] == w1[0];
    assert t[|t| - 1] == w3[|w3| - 1];
    StripTrimmed(t);
  }

  /** The words of the example, spaced. */
  lemma SpacedWords()
    ensures "Movie" + ([' '] + ("Name" + ([' '] + "srt"))) == "Movie Name srt"
  {
  }

  /** The title of the example name. */
  lemma ReleaseTitle(name: string)
    requires name == "Movie.Name.2019.1080p.WEB.x264.srt"
    ensures Title(name) == "Movie Name srt"
  {
    ReleaseDeleted(name);
    WordsTitle(name, "Movie", "Name", "srt");
    SpacedWords();
  }

  /** A year standing after two digit-free words is the year of the whole. */
  lemma YearAfterWords(name: string, w1: string, w2: string, y: string, rest: string)
    requires name == w1 + ['.'] + (w2 + ['.'] + (y + ['.'] + rest))
    requires forall i :: 0 <= i < |w1| ==> !IsDigit(w1[i])
    requires forall i :: 0 <= i < |w2| ==> !IsDigit(w2[i])
    requires Year(y) == y && y != ""
    ensures Year(name) == y
  {
    NoDigitsNoYear(w1);
    YearSplit(w1, '.', w2 + ['.'] + (y + ['.'] + rest));
    NoDigitsNoYear(w2);
    YearSplit(w2, '.', y + ['.'] + rest);
    YearSplit(y, '.', rest);
  }

  /** The year of the example name is the stand-alone `2019`. */
  lemma ReleaseYear(name: string)
    requires name == "Movie.Name.2019.1080p.WEB.x264.srt"
    ensures Year(name) == "2019"
  {
    ReleaseParts(name);
    StandAloneYear("2019");
    YearAfterWords(name, "Movie", "Name", "2019", "1080p" + ['.'] + ("WEB" + ['.'] + ("x264" + ['.'] + "srt")));
  }

  /** Four digits on their own are a year. */
  lemma StandAloneYear(t: string)
    requires t == "2019"
    ensures Year(t) == t
  {
    assert YearAt(t, 0);
    YearIsFirst(t, 0);
  }

  /** An underscore is a word character, so `Film_2019` holds no year. */
  lemma GluedYear(t: string)
    requires t == "Film_2019"
    ensures Year(t) == ""
  {
    forall q: nat ensures !YearAt(t, q) {
      if q == 5 {
        assert !WordBoundary(t, 5);
      } else if q + 4 <= |t| {
        assert !IsDigit(t[if q < 4 then q else 4]);
      }
    }
    NoYear(t);
  }

  /** The tags are removed inside words too: `Hindi` loses its `Hin`. */
  lemma TagInsideWord(t: string)
    requires t == "Hindi"
    ensures Delete(SourceTag, t) == "di"
  {
    var m := Matches(SourceTag, t);
    assert m[0] == 3;
    assert m[3] == 0 && m[4] == 0;
    assert Cut(t, m, 4) == "i";
    assert Cut(t, m, 3) == "di";
  }

  /** The season-episode marker is matched with an upper-case `S` and `E` only. */
  lemma EpisodeCase(upper: string, lower: string)
    requires upper == "S01E02" && lower == "s01e02"
    ensures Delete(Episode, upper) == ""
    ensures Delete(Episode, lower) == lower
  {
    var m := Matches(Episode, upper);
    assert m[0] == 6;
    assert Cut(upper, m, 6) == "";
    forall q | 0 <= q < |lower| ensures MatchLen(Episode, lower, q) == 0 {
    }
    DeleteUnchanged(Episode, lower);
  }
}
