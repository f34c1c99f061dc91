// The bookkeeping of opensubtitles-crawler.py: the `--limit` fallback, the
// offset loop that writes one CSV row per subtitle id, the href filter that
// yields those ids, and the `download` command that turns every `.srt`
// member of an archive into `subtitles/<id>.txt`.
//
// The site is given as data: the anchors of each result page by offset, and
// the archive behind each id.

module OpenSubtitlesCrawler {
  import opened Options
  import opened Text
  import opened Archive
  import opened CsvIndex
  import opened SearchOffsets
  import SrtNormalizer

  // ---------------------------------------------------------------------
  // The crawl command

  /**
   * `args.limit if args.limit else await get_total_entries(session)`: an
   * absent or zero `--limit` falls back to the site total, which is read
   * only then. `total` is `None` when reading it raises, and so is the
   * result then.
   */
  function CrawlLimit(limitArg: Option<int>, total: Option<int>): (limit: Option<int>)
    ensures limitArg.Some? && limitArg.value != 0 ==> limit == Some(limitArg.value)
    ensures limitArg.None? || limitArg.value == 0 ==> limit == total
  {
    match limitArg
    case Some(n) => if n != 0 then Some(n) else total
    case None => total
  }

  /** The path every subtitle download link starts with. */
  const SubPrefix: string := "/en/subtitleserve/sub/"

  /** A full match of `^/en/subtitleserve/sub/\d+$` (the anchors to keep). */
  predicate IsSubtitleHref(href: string) {
    StartsWith(href, SubPrefix) && |href| > |SubPrefix| && AllDigits(href[|SubPrefix|..])
  }

  /** `href.split('/')[-1]` */
  function LastSegment(href: string): string {
    var parts := Split(href, '/');
    parts[|parts| - 1]
  }

  /** The last path segment of a subtitle href is its digits. */
  lemma IdSegment(href: string)
    requires IsSubtitleHref(href)
    ensures LastSegment(href) == href[|SubPrefix|..]
  {
    var p := LastSegment(href);
    SplitLast(href, '/');
    var n := |SubPrefix|;
    assert href[n - 1] == SubPrefix[n - 1] == '/';
    assert '/' !in p;
    assert href[0] == '/';
  }

  /** The ids of `crawl_links`: the last segment of each matching anchor, in anchor order. */
  function LinkIds(hrefs: seq<string>): seq<string>
  {
    if hrefs == [] then []
    else if IsSubtitleHref(hrefs[0]) then [LastSegment(hrefs[0])] + LinkIds(hrefs[1..])
    else LinkIds(hrefs[1..])
  }

  /** Every id is a non-empty run of digits taken from a matching anchor. */
  lemma {:induction false} LinkIdsAreDigits(hrefs: seq<string>)
    ensures forall k :: 0 <= k < |LinkIds(hrefs)| ==> LinkIds(hrefs)[k] != [] && AllDigits(LinkIds(hrefs)[k])
    ensures forall k :: 0 <= k < |LinkIds(hrefs)| ==> SubPrefix + LinkIds(hrefs)[k] in hrefs
  {
    if hrefs != [] {
      LinkIdsAreDigits(hrefs[1..]);
      var h := hrefs[0];
      if IsSubtitleHref(h) {
        IdSegment(h);
        assert h == SubPrefix + h[|SubPrefix|..];
        var ids := LinkIds(hrefs);
        forall k | 0 < k < |ids| ensures ids[k] == LinkIds(hrefs[1..])[k - 1] {
        }
        assert ids[0] == h[|SubPrefix|..];
      }
      forall k | 0 <= k < |LinkIds(hrefs)| ensures SubPrefix + LinkIds(hrefs)[k] in hrefs {
        if !IsSubtitleHref(h) || k > 0 {
          var k' := if IsSubtitleHref(h) then k - 1 else k;
          assert LinkIds(hrefs)[k] == LinkIds(hrefs[1..])[k'];
          assert SubPrefix + LinkIds(hrefs[1..])[k'] in hrefs[1..];
        }
      }
    }
  }

  /** Ids follow anchor order: the ids of two runs of anchors are the ids of each, one after the other. */
  lemma {:induction false} LinkIdsConcat(a: seq<string>, b: seq<string>)
    ensures LinkIds(a + b) == LinkIds(a) + LinkIds(b)
  {
    if a == [] {
      assert a + b == b;
    } else {
      assert (a + b)[1..] == a[1..] + b;
      LinkIdsConcat(a[1..], b);
    }
  }

  /**
   * The rows the crawl writes for the given offsets: one `[id]` row per id
   * of each page, until the first page that cannot be fetched (missing
   * from `pages`), whose exception ends the whole command.
   */
  function CrawlRows(offsets: seq<int>, pages: map<int, seq<string>>): seq<seq<string>>
  {
    if offsets == [] || offsets[0] !in pages then []
    else IdRows(LinkIds(pages[offsets[0]])) + CrawlRows(offsets[1..], pages)
  }

  /** One single-field row per id. */
  function IdRows(ids: seq<string>): (rows: seq<seq<string>>)
    ensures |rows| == |ids|
    ensures forall k :: 0 <= k < |ids| ==> rows[k] == [ids[k]]
  {
    seq(|ids|, k requires 0 <= k < |ids| => [ids[k]])
  }

  /** Every crawled row holds exactly one id, a non-empty run of digits. */
  lemma {:induction false} CrawlRowsAreIds(offsets: seq<int>, pages: map<int, seq<string>>)
    ensures forall k :: 0 <= k < |CrawlRows(offsets, pages)| ==>
      |CrawlRows(offsets, pages)[k]| == 1 && CrawlRows(offsets, pages)[k][0] != [] && AllDigits(CrawlRows(offsets, pages)[k][0])
  {
    if offsets != [] && offsets[0] in pages {
      CrawlRowsAreIds(offsets[1..], pages);
      var ids := LinkIds(pages[offsets[0]]);
      LinkIdsAreDigits(pages[offsets[0]]);
      var head := IdRows(ids);
      var rows := CrawlRows(offsets, pages);
      forall k | 0 <= k < |rows| ensures |rows[k]| == 1 && rows[k][0] != [] && AllDigits(rows[k][0]) {
        if k < |head| {
          assert rows[k] == [ids[k]];
        } else {
          assert rows[k] == CrawlRows(offsets[1..], pages)[k - |head|];
        }
      }
    }
  }

  /** A page that cannot be fetched ends the crawl: the rows are those of the pages before it. */
  lemma {:induction false} CrawlStopsAtMissingPage(offsets: seq<int>, pages: map<int, seq<string>>, k: nat)
    requires k < |offsets| && offsets[k] !in pages
    ensures CrawlRows(offsets, pages) == CrawlRows(offsets[..k], pages)
  {
    if k > 0 && offsets[0] in pages {
      assert offsets[1..][..k - 1] == offsets[..k][1..];
      CrawlStopsAtMissingPage(offsets[1..], pages, k - 1);
    }
  }

  /**
   * `for i in range(0, limit, 40)`: fetch the anchors at each offset and
   * write one row per id. `completed` is false when a page could not be
   * fetched, which ends the command.
   */
  method Crawl(limit: int, pages: map<int, seq<string>>, index: IndexFile) returns (completed: bool)
    requires index.Valid()
    modifies index
    ensures index.Valid()
    ensures index.rows == old(index.rows) + CrawlRows(Offsets(limit), pages)
    ensures completed <==> forall k :: 0 <= k < |Offsets(limit)| ==> Offsets(limit)[k] in pages
  {
    OffsetsShape(limit);
    var i := 0;
    ghost var k := 0;
    completed := true;
    while i < limit
      invariant 0 <= k <= |Offsets(limit)| && i == PageSize * k
      invariant Range(i, limit) == Offsets(limit)[k..]
      invariant index.Valid()
      invariant index.rows + CrawlRows(Range(i, limit), pages) == old(index.rows) + CrawlRows(Offsets(limit), pages)
      invariant forall j :: 0 <= j < k ==> Offsets(limit)[j] in pages
      decreases limit - i
    {
      if i !in pages {
        completed := false;
        assert Offsets(limit)[k] == i;
        return;
      }
      var ids := LinkIds(pages[i]);
      ghost var before := index.rows;
      WriteIds(ids, index);
      assert Range(i, limit) == [i] + Range(i + PageSize, limit);
      AppendAssoc(before, IdRows(ids), CrawlRows(Range(i + PageSize, limit), pages));
      i := i + PageSize;
      k := k + 1;
    }
  }

  /** `for link in links: csvwriter.writerow([link])` */
  method WriteIds(ids: seq<string>, index: IndexFile)
    requires index.Valid()
    modifies index
    ensures index.Valid()
    ensures index.rows == old(index.rows) + IdRows(ids)
  {
    for j := 0 to |ids|
      invariant index.Valid()
      invariant index.rows == old(index.rows) + IdRows(ids[..j])
    {
      index.WriteRow([ids[j]]);
      assert IdRows(ids[..j + 1]) == IdRows(ids[..j]) + [[ids[j]]];
    }
    assert ids[..|ids|] == ids;
  }

  /**
   * The `crawl` command: the rows written for the effective limit, or the
   * site total when `--limit` is absent or zero. When the total is needed
   * and cannot be read, the command ends before the CSV file is opened.
   * The crawler's index has no header row.
   */
  method CrawlCommand(limitArg: Option<int>, total: Option<int>, pages: map<int, seq<string>>) returns (index: IndexFile?, completed: bool)
    ensures CrawlLimit(limitArg, total).None? ==> index == null && !completed
    ensures CrawlLimit(limitArg, total).Some? ==> index != null && fresh(index) && index.Valid()
    ensures CrawlLimit(limitArg, total).Some? ==> index.rows == CrawlRows(Offsets(CrawlLimit(limitArg, total).value), pages)
  {
    var limit := CrawlLimit(limitArg, total);
    if limit.None? {
      return null, false;
    }
    var file := new IndexFile.Open();
    completed := Crawl(limit.value, pages, file);
    index := file;
  }

  // ---------------------------------------------------------------------
  // The download command

  /** The directory the extracted subtitles go to. */
  const SubtitlesDir: string := "subtitles"

  /** `os.path.join(dir, name)` on POSIX: an absolute `name` replaces the directory. */
  function PathJoin(dir: string, name: string): string {
    if StartsWith(name, "/") then name else dir + "/" + name
  }

  /** `os.path.join(SUBTITLES_DIR, f"{download_id}.txt")` */
  function OutputPath(id: string): string {
    PathJoin(SubtitlesDir, id + ".txt")
  }

  /** A digit id lands in the subtitles directory. */
  lemma OutputPathOfId(id: string)
    requires AllDigits(id)
    ensures OutputPath(id) == "subtitles/" + id + ".txt"
  {
    var name := id + ".txt";
    assert name[0] != '/';
    AppendAssoc("subtitles/", id, ".txt");
  }

  /** Different ids never share an output file. */
  lemma OutputPathInjective(a: string, b: string)
    requires OutputPath(a) == OutputPath(b)
    ensures a == b
  {
    var na, nb := a + ".txt", b + ".txt";
    if StartsWith(na, "/") && StartsWith(nb, "/") {
      assert na == nb;
      assert a == na[..|a|] && b == nb[..|b|];
    } else if !StartsWith(na, "/") && !StartsWith(nb, "/") {
      assert SubtitlesDir + "/" + na == SubtitlesDir + "/" + nb;
      assert na == (SubtitlesDir + "/" + na)[|SubtitlesDir| + 1..];
      assert nb == (SubtitlesDir + "/" + nb)[|SubtitlesDir| + 1..];
      assert a == na[..|a|] && b == nb[..|b|];
    }
  }

  /** The written subtitle files, by path. */
  class SubtitleStore {
    var files: map<string, string>

    constructor ()
      ensures files == map[]
    {
      files := map[];
    }

    /** Open `path` for writing and write `text`: any earlier contents are replaced. */
    method Write(path: string, text: string)
      modifies this
      ensures files == old(files)[path := text]
    {
      files := files[path := text];
    }
  }

  /**
   * The files after the member loop of `download_and_extract_zip`: each
   * `.srt` member in `namelist()` order is normalised and written to
   * `path`, replacing what was there; a member that does not decode raises
   * and ends the loop.
   */
  function Extracted(files: map<string, string>, path: string, members: seq<Member>): map<string, string>
    decreases |members|
  {
    if members == [] then files
    else if !IsSrtName(members[0].name) then Extracted(files, path, members[1..])
    else match members[0].text
      case None => files
      case Some(t) => Extracted(files[path := SrtNormalizer.Normalize(t)], path, members[1..])
  }

  /** Extraction writes no file other than `path`. */
  lemma {:induction false} ExtractedElsewhere(files: map<string, string>, path: string, members: seq<Member>)
    ensures forall key :: key != path ==> (key in Extracted(files, path, members) <==> key in files)
    ensures forall key :: key != path && key in files ==> Extracted(files, path, members)[key] == files[key]
    decreases |members|
  {
    if members != [] && IsSrtName(members[0].name) && members[0].text.Some? {
      ExtractedElsewhere(files[path := SrtNormalizer.Normalize(members[0].text.value)], path, members[1..]);
    } else if members != [] && !IsSrtName(members[0].name) {
      ExtractedElsewhere(files, path, members[1..]);
    }
  }

  /** The last `.srt` member, if there is one. */
  function LastSrt(members: seq<Member>): (r: Option<Member>)
    ensures r.None? <==> forall i :: 0 <= i < |members| ==> !IsSrtName(members[i].name)
    ensures r.Some? ==> IsSrtName(r.value.name) && r.value in members
  {
    if members == [] then None
    else
      var last := members[|members| - 1];
      if IsSrtName(last.name) then Some(last) else LastSrt(members[..|members| - 1])
  }

  /** Every `.srt` member decodes. */
  predicate AllSrtDecode(members: seq<Member>) {
    forall m :: m in members && IsSrtName(m.name) ==> m.text.Some?
  }

  /** Adding one member at the end of the loop. */
  lemma {:induction false} ExtractedSnoc(files: map<string, string>, path: string, members: seq<Member>, m: Member)
    requires AllSrtDecode(members)
    ensures Extracted(files, path, members + [m]) ==
      if IsSrtName(m.name) && m.text.Some? then Extracted(files, path, members)[path := SrtNormalizer.Normalize(m.text.value)]
      else Extracted(files, path, members)
    decreases |members|
  {
    if members == [] {
      assert [m][1..] == [];
    } else {
      assert (members + [m])[1..] == members[1..] + [m];
      if IsSrtName(members[0].name) {
        assert members[0] in members;
        ExtractedSnoc(files[path := SrtNormalizer.Normalize(members[0].text.value)], path, members[1..], m);
      } else {
        ExtractedSnoc(files, path, members[1..], m);
      }
    }
  }

  /** The file contents the last `.srt` member gives. */
  function LastSrtFiles(files: map<string, string>, path: string, members: seq<Member>): map<string, string>
    requires AllSrtDecode(members)
  {
    match LastSrt(members)
    case None => files
    case Some(m) => files[path := SrtNormalizer.Normalize(m.text.value)]
  }

  /**
   * When every `.srt` member decodes, the last one decides the file at
   * `path` and no other file changes; with no `.srt` member nothing changes.
   */
  lemma {:induction false} LastSrtWins(files: map<string, string>, path: string, members: seq<Member>)
    requires AllSrtDecode(members)
    ensures Extracted(files, path, members) == LastSrtFiles(files, path, members)
    decreases |members|
  {
    if members != [] {
      var init := members[..|members| - 1];
      var last := members[|members| - 1];
      assert init + [last] == members;
      assert AllSrtDecode(init) by {
        forall m | m in init ensures m in members {
        }
      }
      LastSrtWins(files, path, init);
      ExtractedSnoc(files, path, init, last);
      if IsSrtName(last.name) {
        assert last in members;
        OverwriteTwice(files, path, init, SrtNormalizer.Normalize(last.text.value));
      }
    }
  }

  /** A second write to `path` replaces the first. */
  lemma OverwriteTwice(files: map<string, string>, path: string, members: seq<Member>, text: string)
    requires AllSrtDecode(members)
    ensures LastSrtFiles(files, path, members)[path := text] == files[path := text]
  {
  }

  /** A member that does not decode ends the loop: later members are not looked at. */
  lemma {:induction false} UndecodableStops(files: map<string, string>, path: string, members: seq<Member>, k: nat)
    requires k < |members| && IsSrtName(members[k].name) && members[k].text.None?
    ensures Extracted(files, path, members) == Extracted(files, path, members[..k])
    decreases |members|
  {
    if k > 0 {
      assert members[1..][..k - 1] == members[..k][1..];
      if IsSrtName(members[0].name) && members[0].text.Some? {
        UndecodableStops(files[path := SrtNormalizer.Normalize(members[0].text.value)], path, members[1..], k - 1);
      } else if !IsSrtName(members[0].name) {
        UndecodableStops(files, path, members[1..], k - 1);
      }
    }
  }

  /**
   * `download_and_extract_zip`: `archive` is `None` when the download or
   * the ZIP parsing fails, which the function reports and survives.
   */
  method DownloadAndExtract(store: SubtitleStore, id: string, archive: Option<seq<Member>>)
    modifies store
    ensures archive.None? ==> store.files == old(store.files)
    ensures archive.Some? ==> store.files == Extracted(old(store.files), OutputPath(id), archive.value)
  {
    if archive.None? {
      return;
    }
    var members := archive.value;
    var path := OutputPath(id);
    for k := 0 to |members|
      invariant Extracted(store.files, path, members[k..]) == Extracted(old(store.files), path, members)
    {
      assert members[k..][1..] == members[k + 1..];
      var m := members[k];
      if IsSrtName(m.name) {
        if m.text.None? {
          return;
        }
        var processed := SrtNormalizer.Normalize(m.text.value);
        store.Write(path, processed);
      }
    }
  }

  /** The archive behind the download link of `id`, if it can be fetched and opened. */
  function ArchiveOf(archives: map<string, seq<Member>>, id: string): Option<seq<Member>> {
    if id in archives then Some(archives[id]) else None
  }

  /** One id of the index, downloaded and extracted. */
  function DownloadedOne(files: map<string, string>, archives: map<string, seq<Member>>, id: string): map<string, string> {
    match ArchiveOf(archives, id)
    case None => files
    case Some(members) => Extracted(files, OutputPath(id), members)
  }

  /** The files after `download_subtitles` has handled the given index lines. */
  function Downloaded(files: map<string, string>, archives: map<string, seq<Member>>, lines: seq<string>): map<string, string>
  {
    if lines == [] then files
    else DownloadedOne(Downloaded(files, archives, lines[..|lines| - 1]), archives, Strip(lines[|lines| - 1]))
  }

  /** Only the output files of ids read from the index can change. */
  lemma {:induction false} DownloadedElsewhere(files: map<string, string>, archives: map<string, seq<Member>>, lines: seq<string>, key: string)
    requires forall i :: 0 <= i < |lines| ==> key != OutputPath(Strip(lines[i]))
    ensures key in Downloaded(files, archives, lines) <==> key in files
    ensures key in files ==> Downloaded(files, archives, lines)[key] == files[key]
  {
    if lines != [] {
      var init := lines[..|lines| - 1];
      DownloadedElsewhere(files, archives, init, key);
      var id := Strip(lines[|lines| - 1]);
      if id in archives {
        ExtractedElsewhere(Downloaded(files, archives, init), OutputPath(id), archives[id]);
      }
    }
  }

  /**
   * The `download` command: each line of the index, stripped, is an id;
   * every id is downloaded and extracted in turn, and a failing one is
   * reported and skipped.
   */
  method DownloadSubtitles(store: SubtitleStore, archives: map<string, seq<Member>>, lines: seq<string>)
    modifies store
    ensures store.files == Downloaded(old(store.files), archives, lines)
  {
    for k := 0 to |lines|
      invariant store.files == Downloaded(old(store.files), archives, lines[..k])
    {
      var id := Strip(lines[k]);
      DownloadAndExtract(store, id, ArchiveOf(archives, id));
      assert lines[..k + 1][..k] == lines[..k];
    }
    assert lines[..|lines|] == lines;
  }

  /** A row the crawl wrote, read back as a line of the index (`csv.writer` ends it with CRLF), strips to its id. */
  lemma IdReadBack(id: string)
    requires id != [] && AllDigits(id)
    ensures Strip(id + "\r\n") == id
  {
    var s := id + "\r\n";
    assert !IsSpace(s[0]);
    assert LeadingSpaces(s) == 0;
    assert s[|s| - 1] == '\n' && s[|s| - 2] == '\r' && !IsSpace(s[|s| - 3]);
    assert s[..|s| - 0] == s;
    assert TrailingSpaces(s) == 2 by {
      assert TrailingSpaces(s) == 1 + TrailingSpaces(s[..|s| - 1]);
      assert s[..|s| - 1][..|s| - 2] == s[..|s| - 2];
      assert TrailingSpaces(s[..|s| - 1]) == 1 + TrailingSpaces(s[..|s| - 2]);
    }
    assert s[..|s| - 2] == id;
  }

  // ---------------------------------------------------------------------
  // The anchor filter as written

  /**
   * What `href=re.compile(r"^/en/subtitleserve/sub/\d+$")` accepts: the
   * filter searches the pattern, and `$` also matches just before a final
   * newline.
   */
  predicate HrefMatchesAsWritten(href: string) {
    IsSubtitleHref(href) || (href != [] && href[|href| - 1] == '\n' && IsSubtitleHref(href[..|href| - 1]))
  }

  /** An href with a trailing newline passes the filter and yields an id that is not all digits. */
  lemma NewlineHrefAccepted(href: string)
    requires href == SubPrefix + "12\n"
    ensures HrefMatchesAsWritten(href)
    ensures !IsSubtitleHref(href)
    ensures LastSegment(href) == "12\n" && !AllDigits(LastSegment(href))
  {
    assert href[..|href| - 1] == SubPrefix + "12";
    assert href[|SubPrefix|..] == "12\n";
    assert !IsDigit(href[|SubPrefix|..][2]);
    SplitNewlineId(href);
  }

  /** The split of the example href, cut at its last slash. */
  lemma SplitNewlineId(href: string)
    requires href == SubPrefix + "12\n"
    ensures LastSegment(href) == "12\n"
  {
    var p := LastSegment(href);
    SplitLast(href, '/');
    var n := |SubPrefix|;
    assert href[n - 1] == '/';
    assert '/' !in p;
    assert href[0] == '/';
    assert href[|href| - 3..] == "12\n";
  }

  /** The full match is what the filter accepts without the trailing-newline case. */
  lemma FullMatchIsAsWrittenWithoutNewline(href: string)
    requires href == [] || href[|href| - 1] != '\n'
    ensures IsSubtitleHref(href) <==> HrefMatchesAsWritten(href)
  {
  }
}
