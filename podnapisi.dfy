// The podnapisi.net crawler (podnapisi.py): request the Hindi search
// results page by page, take the title and year from each entry's title
// text, download its archive and index its first `.srt` member.
//
// The site is given as data: the outcome of loading each result page, and
// the member names of the archive behind each download link.

module Podnapisi {
  import opened Options
  import opened Text
  import opened Archive
  import opened CsvIndex

  // ---------------------------------------------------------------------
  // Title text

  /** `title.split('(')[-1].split(')')[0]`: the text after the last `(`, up to the next `)`. */
  function YearOf(t: string): string {
    var parts := Split(t, '(');
    Split(parts[|parts| - 1], ')')[0]
  }

  /** `title.split('(')[0].strip()`: the text before the first `(`, stripped. */
  function TitleOf(t: string): string {
    Strip(Split(t, '(')[0])
  }

  /** The year holds no parenthesis, and it is read from the front of the text after the last `(`. */
  lemma YearOfShape(t: string)
    ensures '(' !in YearOf(t) && ')' !in YearOf(t)
    ensures var parts := Split(t, '('); var after := parts[|parts| - 1];
      |after| <= |t| && t[|t| - |after|..] == after && (|after| == |t| || t[|t| - |after| - 1] == '(') &&
      |YearOf(t)| <= |after| && after[..|YearOf(t)|] == YearOf(t) && (|YearOf(t)| == |after| || after[|YearOf(t)|] == ')')
  {
    var parts := Split(t, '(');
    var after := parts[|parts| - 1];
    SplitLast(t, '(');
    SplitFirst(after, ')');
  }

  /** The title holds no `(`, and it is the stripped text before the first `(`. */
  lemma TitleOfShape(t: string)
    ensures '(' !in TitleOf(t)
    ensures var before := Split(t, '(')[0];
      |before| <= |t| && t[..|before|] == before && (|before| == |t| || t[|before|] == '(') && TitleOf(t) == Strip(before)
    ensures TitleOf(t) == [] || (!IsSpace(TitleOf(t)[0]) && !IsSpace(TitleOf(t)[|TitleOf(t)| - 1]))
  {
    var before := Split(t, '(')[0];
    SplitFirst(t, '(');
    StripSpec(before);
  }

  /** Without parentheses the year is the whole text and the title is the text stripped. */
  lemma NoParentheses(t: string)
    requires '(' !in t && ')' !in t
    ensures YearOf(t) == t && TitleOf(t) == Strip(t)
  {
  }

  /** A title text `name(year)` splits into the stripped name and the year. */
  lemma ParenthesisedYear(name: string, year: string)
    requires '(' !in name && ')' !in name && '(' !in year && ')' !in year
    ensures YearOf(name + "(" + year + ")") == year
    ensures TitleOf(name + "(" + year + ")") == Strip(name)
  {
    var t := name + "(" + year + ")";
    assert t == name + ['('] + (year + [')']);
    SplitAround(name, '(', year + [')']);
    assert year + [')'] == year + [')'] + [];
    SplitAround(year, ')', []);
  }

  /** `Name (2019)` gives the title `Name` and the year `2019`. */
  lemma NameAndYear(t: string)
    requires t == "Name (2019)"
    ensures TitleOf(t) == "Name" && YearOf(t) == "2019"
  {
    NameAndYearSplit(t);
    StripOneTrailing("Name");
  }

  /** `Name (2019)` is the name `Name ` and the year `2019` around a parenthesis. */
  lemma NameAndYearSplit(t: string)
    requires t == "Name (2019)"
    ensures TitleOf(t) == Strip("Name" + " ") && YearOf(t) == "2019"
  {
    assert t == ("Name" + " ") + "(" + "2019" + ")";
    ParenthesisedYear("Name" + " ", "2019");
  }

  /** One trailing space is stripped from a word without white space at its ends. */
  lemma StripOneTrailing(w: string)
    requires w != [] && !IsSpace(w[0]) && !IsSpace(w[|w| - 1])
    ensures Strip(w + " ") == w
  {
    var s := w + " ";
    assert LeadingSpaces(s) == 0;
    assert s[..|s| - 1] == w;
    assert TrailingSpaces(w) == 0;
    assert TrailingSpaces(s) == 1;
  }

  /** Splitting at the only separator gives the two sides. */
  lemma {:induction false} SplitAround(a: string, sep: char, b: string)
    requires sep !in a && sep !in b
    ensures Split(a + [sep] + b, sep) == [a, b]
  {
    if a == [] {
      assert (a + [sep] + b)[1..] == b;
    } else {
      var s := a + [sep] + b;
      assert s[0] == a[0];
      assert s[1..] == a[1..] + [sep] + b;
      SplitAround(a[1..], sep, b);
      assert [a[0]] + a[1..] == a;
    }
  }

  // ---------------------------------------------------------------------
  // The page loop

  /**
   * One search-result entry: the text of its title link and the target of
   * its download link, each `None` when the element is missing
   * (`find_element` raises).
   */
  datatype Entry = Entry(titleText: Option<string>, link: Option<string>)

  /**
   * The outcome of requesting one result page and waiting for its entries:
   * the entries found, a `TimeoutException`, or any other exception.
   */
  datatype Page = Listed(entries: seq<Entry>) | TimedOut | Failed

  /** The CSV row `[title, year, srt_file]`. */
  function EntryRow(t: string, srt: string): seq<string> {
    [TitleOf(t), YearOf(t), srt]
  }

  /**
   * The row of one entry, or `None` when handling it raises: an element is
   * missing, the download or the ZIP parsing fails (`archives` has no entry
   * for the link), or the archive has no `.srt` member (`IndexError`).
   */
  function RowOf(e: Entry, archives: map<string, seq<string>>): Option<seq<string>> {
    match e.titleText
    case None => None
    case Some(t) =>
      match e.link
      case None => None
      case Some(link) =>
        if link !in archives then None
        else match FirstSrt(archives[link])
          case None => None
          case Some(srt) => Some(EntryRow(t, srt))
  }

  /** The rows of a page's entries, up to the first that raises. */
  function PageRows(entries: seq<Entry>, archives: map<string, seq<string>>): (rows: seq<seq<string>>)
    ensures |rows| <= |entries|
  {
    if entries == [] then []
    else match RowOf(entries[0], archives)
      case None => []
      case Some(row) => [row] + PageRows(entries[1..], archives)
  }

  /** Every entry of the page is handled without raising. */
  predicate PageComplete(entries: seq<Entry>, archives: map<string, seq<string>>) {
    forall i :: 0 <= i < |entries| ==> RowOf(entries[i], archives).Some?
  }

  /** A page handled in full gives one row per entry. */
  lemma {:induction false} CompletePageRows(entries: seq<Entry>, archives: map<string, seq<string>>)
    requires PageComplete(entries, archives)
    ensures |PageRows(entries, archives)| == |entries|
  {
    if entries != [] {
      assert RowOf(entries[0], archives).Some?;
      assert PageComplete(entries[1..], archives) by {
        forall i | 0 <= i < |entries| - 1 ensures RowOf(entries[1..][i], archives).Some? {
          assert entries[1..][i] == entries[i + 1];
        }
      }
      CompletePageRows(entries[1..], archives);
    }
  }

  /**
   * The first entry that raises ends the page with the rows of the
   * entries before it.
   */
  lemma {:induction false} EntryErrorKeepsEarlierRows(entries: seq<Entry>, archives: map<string, seq<string>>, k: nat)
    requires k < |entries| && RowOf(entries[k], archives).None?
    requires forall j :: 0 <= j < k ==> RowOf(entries[j], archives).Some?
    ensures PageRows(entries, archives) == PageRows(entries[..k], archives)
    ensures |PageRows(entries, archives)| == k
    ensures !PageComplete(entries, archives)
  {
    if k > 0 {
      assert entries[1..][..k - 1] == entries[..k][1..];
      assert entries[1..][k - 1] == entries[k];
      EntryErrorKeepsEarlierRows(entries[1..], archives, k - 1);
    }
  }

  /** Each row of a page is the row of the entry at the same position. */
  lemma {:induction false} PageRowsAreEntryRows(entries: seq<Entry>, archives: map<string, seq<string>>)
    ensures forall k :: 0 <= k < |PageRows(entries, archives)| ==> RowOf(entries[k], archives) == Some(PageRows(entries, archives)[k])
  {
    if entries != [] && RowOf(entries[0], archives).Some? {
      PageRowsAreEntryRows(entries[1..], archives);
      var rows := PageRows(entries, archives);
      forall k | 0 < k < |rows| ensures rows[k] == PageRows(entries[1..], archives)[k - 1] && entries[k] == entries[1..][k - 1] {
      }
    }
  }

  /** An entry's row holds the split title text and the first `.srt` member of its archive. */
  lemma EntryRowShape(e: Entry, archives: map<string, seq<string>>)
    requires RowOf(e, archives).Some?
    ensures e.titleText.Some? && e.link.Some? && e.link.value in archives
    ensures var row := RowOf(e, archives).value;
      |row| == 3 && row[0] == TitleOf(e.titleText.value) && row[1] == YearOf(e.titleText.value) &&
      FirstSrt(archives[e.link.value]) == Some(row[2]) && IsSrtName(row[2]) &&
      '(' !in row[0] && '(' !in row[1] && ')' !in row[1]
  {
    TitleOfShape(e.titleText.value);
    YearOfShape(e.titleText.value);
  }

  /**
   * Page `n` (counted from 1) of the results. The results end with pages
   * that list no entries, which `pages` leaves implicit.
   */
  function PageAt(pages: seq<Page>, n: nat): Page
    requires n >= 1
  {
    if n <= |pages| then pages[n - 1] else Loaded([])
  }

  /** The loop moves on from a page: it timed out, or it listed entries and all of them were handled. */
  predicate Advances(p: Page, archives: map<string, seq<string>>) {
    p.TimedOut? || (p.Listed? && p.entries != [] && PageComplete(p.entries, archives))
  }

  /** The rows a page adds: those of its entries, and none for a page that timed out or failed. */
  function RowsOfPage(p: Page, archives: map<string, seq<string>>): seq<seq<string>> {
    if p.Listed? then PageRows(p.entries, archives) else []
  }

  /** The page numbers requested and the rows written. */
  datatype Crawl = Crawl(requested: seq<nat>, rows: seq<seq<string>>)

  /**
   * The loop of `download_subtitles` from `page_number == n`: request page
   * `n`, add its rows, and go on with `n + 1` when the page advances the
   * loop; otherwise (no entries, a failing entry, any other exception) stop.
   */
  function CrawlFrom(pages: seq<Page>, archives: map<string, seq<string>>, n: nat): Crawl
    requires 1 <= n <= |pages| + 1
    decreases |pages| + 1 - n
  {
    var p := PageAt(pages, n);
    if Advances(p, archives) then
      var r := CrawlFrom(pages, archives, n + 1);
      Crawl([n] + r.requested, RowsOfPage(p, archives) + r.rows)
    else
      Crawl([n], RowsOfPage(p, archives))
  }

  /** The loop requests `n, n + 1, n + 2, ...` without gaps, and at least one page. */
  lemma {:induction false} RequestsConsecutive(pages: seq<Page>, archives: map<string, seq<string>>, n: nat)
    requires 1 <= n <= |pages| + 1
    ensures var req := CrawlFrom(pages, archives, n).requested;
      |req| >= 1 && forall i :: 0 <= i < |req| ==> req[i] == n + i
    decreases |pages| + 1 - n
  {
    if Advances(PageAt(pages, n), archives) {
      RequestsConsecutive(pages, archives, n + 1);
      var req := CrawlFrom(pages, archives, n).requested;
      forall i | 0 < i < |req| ensures req[i] == n + i {
        assert req[i] == CrawlFrom(pages, archives, n + 1).requested[i - 1];
      }
    }
  }

  /**
   * The loop goes on exactly while pages advance it: every requested page
   * but the last advances, and the last does not.
   */
  lemma StopsAtFirstNonAdvancing(pages: seq<Page>, archives: map<string, seq<string>>, n: nat)
    requires 1 <= n <= |pages| + 1
    ensures var req := CrawlFrom(pages, archives, n).requested;
      |req| >= 1 &&
      (forall m :: n <= m < n + |req| - 1 ==> Advances(PageAt(pages, m), archives)) &&
      n + |req| - 1 <= |pages| + 1 && !Advances(PageAt(pages, n + |req| - 1), archives)
  {
    AdvancesUntilLast(pages, archives, n);
    LastDoesNotAdvance(pages, archives, n);
  }

  /** Every requested page but the last advances the loop. */
  lemma {:induction false} AdvancesUntilLast(pages: seq<Page>, archives: map<string, seq<string>>, n: nat)
    requires 1 <= n <= |pages| + 1
    ensures forall m :: n <= m < n + |CrawlFrom(pages, archives, n).requested| - 1 ==> Advances(PageAt(pages, m), archives)
    decreases |pages| + 1 - n
  {
    CrawlStep(pages, archives, n);
    if Advances(PageAt(pages, n), archives) {
      AdvancesUntilLast(pages, archives, n + 1);
      var rest := CrawlFrom(pages, archives, n + 1).requested;
      assert |CrawlFrom(pages, archives, n).requested| == 1 + |rest|;
      forall m | n < m < n + |rest| ensures Advances(PageAt(pages, m), archives) {
        assert n + 1 <= m < (n + 1) + |rest| - 1;
      }
    }
  }

  /** Only a page of `pages` can advance the loop: the pages after them list no entries. */
  lemma AdvancingPageIsGiven(pages: seq<Page>, archives: map<string, seq<string>>, m: nat)
    requires m >= 1
    ensures Advances(PageAt(pages, m), archives) ==> m <= |pages|
  {
  }

  /** The last requested page does not advance the loop. */
  lemma {:induction false} LastDoesNotAdvance(pages: seq<Page>, archives: map<string, seq<string>>, n: nat)
    requires 1 <= n <= |pages| + 1
    ensures var req := CrawlFrom(pages, archives, n).requested;
      |req| >= 1 && n + |req| - 1 <= |pages| + 1 && !Advances(PageAt(pages, n + |req| - 1), archives)
    decreases |pages| + 1 - n
  {
    CrawlStep(pages, archives, n);
    if Advances(PageAt(pages, n), archives) {
      LastDoesNotAdvance(pages, archives, n + 1);
      var rest := CrawlFrom(pages, archives, n + 1).requested;
      assert n + |rest| == (n + 1) + |rest| - 1;
    }
  }

  /** One turn of the loop: page `n` is requested, its rows added, and the loop goes on when it advances. */
  lemma CrawlStep(pages: seq<Page>, archives: map<string, seq<string>>, n: nat)
    requires 1 <= n <= |pages| + 1
    ensures Advances(PageAt(pages, n), archives) ==> (n <= |pages| &&
      CrawlFrom(pages, archives, n).requested == [n] + CrawlFrom(pages, archives, n + 1).requested &&
      CrawlFrom(pages, archives, n).rows == RowsOfPage(PageAt(pages, n), archives) + CrawlFrom(pages, archives, n + 1).rows)
    ensures !Advances(PageAt(pages, n), archives) ==>
      CrawlFrom(pages, archives, n) == Crawl([n], RowsOfPage(PageAt(pages, n), archives))
  {
  }

  /**
   * An entry that raises aborts the whole loop on its page, and the rows
   * of the entries before it stay.
   */
  lemma EntryErrorAborts(pages: seq<Page>, archives: map<string, seq<string>>, n: nat, entries: seq<Entry>, k: nat)
    requires 1 <= n <= |pages| && pages[n - 1] == Listed(entries)
    requires k < |entries| && RowOf(entries[k], archives).None?
    requires forall j :: 0 <= j < k ==> RowOf(entries[j], archives).Some?
    ensures CrawlFrom(pages, archives, n).requested == [n]
    ensures CrawlFrom(pages, archives, n).rows == PageRows(entries[..k], archives)
    ensures |CrawlFrom(pages, archives, n).rows| == k
  {
    EntryErrorKeepsEarlierRows(entries, archives, k);
  }

  /** A row as `download_subtitles` writes it: a title without `(`, a year without parentheses, an `.srt` name. */
  predicate RowShaped(row: seq<string>) {
    |row| == 3 && IsSrtName(row[2]) && '(' !in row[0] && '(' !in row[1] && ')' !in row[1]
  }

  /** Every row of a page is shaped. */
  lemma PageRowsShaped(entries: seq<Entry>, archives: map<string, seq<string>>)
    ensures forall k :: 0 <= k < |PageRows(entries, archives)| ==> RowShaped(PageRows(entries, archives)[k])
  {
    PageRowsAreEntryRows(entries, archives);
    forall k | 0 <= k < |PageRows(entries, archives)| ensures RowShaped(PageRows(entries, archives)[k]) {
      EntryRowShape(entries[k], archives);
    }
  }

  /** Every written row is the row of some entry: split title text, year, first `.srt` name. */
  lemma {:induction false} CrawlRowsShape(pages: seq<Page>, archives: map<string, seq<string>>, n: nat)
    requires 1 <= n <= |pages| + 1
    ensures forall k :: 0 <= k < |CrawlFrom(pages, archives, n).rows| ==> RowShaped(CrawlFrom(pages, archives, n).rows[k])
    decreases |pages| + 1 - n
  {
    var p := PageAt(pages, n);
    var head := RowsOfPage(p, archives);
    if p.Listed? {
      PageRowsShaped(p.entries, archives);
    }
    CrawlStep(pages, archives, n);
    if Advances(p, archives) {
      CrawlRowsShape(pages, archives, n + 1);
      var tail := CrawlFrom(pages, archives, n + 1).rows;
      var rows := head + tail;
      forall k | 0 <= k < |rows| ensures RowShaped(rows[k]) {
        if k >= |head| {
          assert rows[k] == tail[k - |head|];
        }
      }
    }
  }

  /**
   * The entry loop of one page: each entry's row is written and flushed at
   * once. `complete` is false when an entry raised, which ends the crawl.
   */
  method ProcessPage(entries: seq<Entry>, archives: map<string, seq<string>>, index: IndexFile) returns (complete: bool)
    requires index.Valid()
    modifies index
    ensures index.Valid()
    ensures index.rows == old(index.rows) + PageRows(entries, archives)
    ensures complete <==> PageComplete(entries, archives)
    ensures index.flushed == if |index.rows| == |old(index.rows)| then old(index.flushed) else |index.rows|
  {
    var k := 0;
    while k < |entries|
      invariant 0 <= k <= |entries|
      invariant index.Valid()
      invariant index.rows + PageRows(entries[k..], archives) == old(index.rows) + PageRows(entries, archives)
      invariant |index.rows| == |old(index.rows)| + k
      invariant forall j :: 0 <= j < k ==> RowOf(entries[j], archives).Some?
      invariant index.flushed == if |index.rows| == |old(index.rows)| then old(index.flushed) else |index.rows|
    {
      var row := RowOf(entries[k], archives);
      if row.None? {
        EntryErrorKeepsEarlierRows(entries, archives, k);
        return false;
      }
      assert entries[k..][1..] == entries[k + 1..];
      AppendAssoc(index.rows, [row.value], PageRows(entries[k + 1..], archives));
      index.WriteRow(row.value);
      index.Flush();
      k := k + 1;
    }
    assert entries[k..] == [];
    return true;
  }

  /**
   * `download_subtitles`: `page_number` starts at 1; a page that times out
   * or is handled in full moves it on by one, anything else ends the loop.
   */
  method DownloadSubtitles(pages: seq<Page>, archives: map<string, seq<string>>, index: IndexFile) returns (requested: seq<nat>)
    requires index.Valid()
    modifies index
    ensures index.Valid()
    ensures requested == CrawlFrom(pages, archives, 1).requested
    ensures index.rows == old(index.rows) + CrawlFrom(pages, archives, 1).rows
    ensures index.flushed == if |index.rows| == |old(index.rows)| then old(index.flushed) else |index.rows|
  {
    var pageNumber: nat := 1;
    requested := [];
    while true
      invariant 1 <= pageNumber <= |pages| + 1
      invariant index.Valid()
      invariant requested + CrawlFrom(pages, archives, pageNumber).requested == CrawlFrom(pages, archives, 1).requested
      invariant index.rows + CrawlFrom(pages, archives, pageNumber).rows == old(index.rows) + CrawlFrom(pages, archives, 1).rows
      invariant |index.rows| >= |old(index.rows)|
      invariant index.flushed == if |index.rows| == |old(index.rows)| then old(index.flushed) else |index.rows|
      decreases |pages| + 1 - pageNumber
    {
      var page := PageAt(pages, pageNumber);
      CrawlStep(pages, archives, pageNumber);
      ghost var before := index.rows;
      ghost var asked := requested;
      var advance := false;
      match page {
        case TimedOut =>
          advance := true;
        case Failed =>
        case Listed(entries) =>
          if entries != [] {
            advance := ProcessPage(entries, archives, index);
          }
      }
      assert index.rows == before + RowsOfPage(page, archives);
      assert advance == Advances(page, archives);
      requested := requested + [pageNumber];
      if !advance {
        break;
      }
      ghost var next := CrawlFrom(pages, archives, pageNumber + 1);
      AppendAssoc(asked, [pageNumber], next.requested);
      AppendAssoc(before, RowsOfPage(page, archives), next.rows);
      assert index.rows + next.rows == before + CrawlFrom(pages, archives, pageNumber).rows;
      pageNumber := pageNumber + 1;
    }
  }

  /**
   * `main`: without a CSRF token nothing is written; otherwise the index
   * starts with its header row and the crawled rows follow.
   */
  method Harvest(csrfFound: bool, pages: seq<Page>, archives: map<string, seq<string>>) returns (index: IndexFile?, requested: seq<nat>)
    ensures !csrfFound ==> index == null && requested == []
    ensures csrfFound ==> index != null && fresh(index) && index.Valid()
    ensures csrfFound ==> requested == CrawlFrom(pages, archives, 1).requested
    ensures csrfFound ==> index.rows == [Header] + CrawlFrom(pages, archives, 1).rows
  {
    if !csrfFound {
      return null, [];
    }
    var file := new IndexFile.Open();
    file.WriteRow(Header);
    assert file.rows == [Header];
    requested := DownloadSubtitles(pages, archives, file);
    index := file;
  }

  // ---------------------------------------------------------------------
  // Waiting for entries on an empty page

  /**
   * What the loop sees of a listing, as written: waiting for the presence
   * of all entry elements times out unless at least one is present, so an
   * empty listing never reaches the `if not entries` check.
   */
  function WaitedAsWritten(listing: seq<Entry>): Page {
    if listing == [] then TimedOut else Listed(listing)
  }

  /** As written, a results page with no entries moves the loop on instead of ending it. */
  lemma EmptyListingAdvancesAsWritten(archives: map<string, seq<string>>)
    ensures Advances(WaitedAsWritten([]), archives)
    ensures !Advances(Loaded([]), archives)
  {
  }

  /**
   * As written, however many empty pages follow the results, the loop
   * requests every one of them: the `break` on an empty page never fires.
   */
  lemma {:induction false} EmptyPagesNeverEndAsWritten(pages: seq<Page>, archives: map<string, seq<string>>, n: nat)
    requires 1 <= n <= |pages| + 1
    requires forall i :: n - 1 <= i < |pages| ==> pages[i] == WaitedAsWritten([])
    ensures CrawlFrom(pages, archives, n).requested == seq(|pages| + 2 - n, i => n + i)
    ensures CrawlFrom(pages, archives, n).rows == []
    decreases |pages| + 1 - n
  {
    if n <= |pages| {
      EmptyPagesNeverEndAsWritten(pages, archives, n + 1);
      assert [n] + seq(|pages| + 1 - n, i => n + 1 + i) == seq(|pages| + 2 - n, i => n + i);
    } else {
      assert seq(1, i => n + i) == [n];
    }
  }

  /**
   * The page the loop is meant to see: the entries present after loading,
   * so that an empty listing ends the loop (the outcome `PageAt` gives the
   * pages after the results).
   */
  function Loaded(listing: seq<Entry>): Page {
    Listed(listing)
  }

  /** With the listing taken as loaded, the first empty page ends the loop. */
  lemma EmptyListingStops(pages: seq<Page>, archives: map<string, seq<string>>, n: nat)
    requires 1 <= n <= |pages| + 1 && PageAt(pages, n) == Loaded([])
    ensures CrawlFrom(pages, archives, n) == Crawl([n], [])
  {
  }
}
