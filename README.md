# subtitle-harvesting in Dafny

A model of the deterministic core of the subtitle-harvesting scripts, which
collect Hindi subtitles from two sites and index them in CSV files:

- `opensubtitles-crawler.py`, with two commands:
  - `crawl` walks the opensubtitles.org search results 40 entries at a time and writes one row per subtitle download id;
  - `download` reads the ids back, fetches each id's ZIP archive and writes every `.srt` member, normalised, to `subtitles/<id>.txt`.
- `opensubtitles.py` walks the same search results. For each entry it downloads the archive, picks its first `.srt` member and writes a `[title, year, file]` row. The title and year come from a fingerprint of the file name.
- `podnapisi.py` walks the podnapisi.net search result pages, numbered 1, 2, 3, and so on. It takes title and year from the entry's title text, `Name (2019)`, and indexes the first `.srt` member of each archive.

The web pages, archives and file system are given as data:

- the result pages, as ids or entries per page or offset;
- the archives, as member names, or as names with decoded text;
- the written files, as a map from path to contents;
- the CSV file, as a class holding its rows and how many of them are flushed.

Loops that write rows or files are methods with loop invariants. Each is proved against a function that says which rows or files result. Properties of those functions are proved as lemmas.

Modules:

- `Text` (`text.dfy`): the Python string operations used, namely `strip`, `split`, `join`, `replace`, `endswith` and `splitlines`, plus the `str.isspace` character set. `Options` holds `Option`.
- `SrtNormalizer`, `SrtFiles`, `SrtNormalizerExamples` (`normalizer.dfy`): `process_srt_content_blocking`, what it does to well-formed SRT files, and worked examples.
- `Fingerprint`, `FingerprintExamples` (`fingerprint.dfy`): the year and title derived from an `.srt` member name in `opensubtitles.py`.
- `Archive` (`archive.dfy`): the `.srt` members of an archive and the first of them.
- `CsvIndex` (`csv_index.dfy`): the CSV output file with `writerow` and `flush`.
- `SearchOffsets` (`offsets.dfy`): `range(0, limit, 40)`.
- `OpenSubtitlesCrawler` (`crawler.dfy`): the `crawl` and `download` commands of `opensubtitles-crawler.py`.
- `OpenSubtitles` (`opensubtitles.dfy`): `download_subtitles` and `main` of `opensubtitles.py`.
- `Podnapisi` (`podnapisi.dfy`): the title split, `download_subtitles` and `main` of `podnapisi.py`.

The model follows the code in these places:

- The normaliser makes one `replace("\n\n", "\n")` pass. Normalising is therefore not idempotent, and `\n\n` can survive.
- A missing year is the empty string.
- `S\d{2}E\d{2}` is matched case-sensitively. Only the source-tag deletion uses `re.I`.

## Model

| member | source | states |
|---|---|---|
| SrtNormalizer.TimeRangeAsPattern | opensubtitles-crawler.py:18 | the greedy scan accepts a line exactly when it starts with stamp, white space, `-->`, white space, stamp |
| SrtNormalizer.CueLineDropped | opensubtitles-crawler.py:18 | a cue timing line `<stamp> --> <stamp>` is a time-range line, whatever follows |
| SrtNormalizer.CleanLines | opensubtitles-crawler.py:41-45 | the comprehension keeps at most as many lines as it is given |
| SrtNormalizer.CleanLinesAreKeptLines | opensubtitles-crawler.py:41-45 | every output line is the stripped form of an input line that neither test dropped, in input order (completeness is `KeptComplete`) |
| SrtNormalizer.KeptComplete | opensubtitles-crawler.py:41-45 | every input line that neither test drops appears among the kept lines |
| SrtNormalizer.CleanLinesConcat | opensubtitles-crawler.py:41-45 | cleaning distributes over concatenation of line lists |
| SrtNormalizer.CollapseNewlineRun | opensubtitles-crawler.py:46 | the single `replace("\n\n", "\n")` turns a run of k newlines into ceil(k/2) newlines |
| SrtNormalizer.CollapseKeepsOther | opensubtitles-crawler.py:46 | other characters pass through the replace unchanged |
| SrtFiles.NormalizePlainSrt | opensubtitles-crawler.py:39-46 | a well-formed SRT file of plain cues normalises to the cues' text lines, in order, one per line |
| SrtFiles.BlankLinesHalved | opensubtitles-crawler.py:46 | k empty lines between two text lines become ceil((k+1)/2) newlines, so from two empty lines on a blank line survives |
| SrtNormalizerExamples.TwoCueExample | opensubtitles-crawler.py:39-46 | a two-cue file normalises to its two texts on two lines |
| SrtNormalizerExamples.OneCueExample | opensubtitles-crawler.py:39-46 | a one-cue file normalises to its text |
| SrtNormalizerExamples.IndexTestBeforeStrip | opensubtitles-crawler.py:42-44 | both tests look at the unstripped line: `" 12"` survives as `"12"` |
| SrtNormalizerExamples.NotIdempotent | opensubtitles-crawler.py:39-46 | normalising ` 12` twice gives a different text from normalising it once, so the normaliser is not idempotent |
| SrtNormalizerExamples.TimingLine | opensubtitles-crawler.py:18 | two time stamps joined by ` --> ` form a line that starts with a time range |
| SrtNormalizerExamples.TwoCueFile | opensubtitles-crawler.py:39-46 | the literal file `1`, `00:00:01,000 --> 00:00:02,000`, `Hello`, ``, `2`, `00:00:03,000 --> 00:00:04,000`, `World` normalises to `Hello\nWorld` |
| Fingerprint.FindYear | opensubtitles.py:58 | `re.search(r"\b\d{4}\b")`: the first index from p on where a stand-alone four-digit token starts, and none before it |
| Fingerprint.Year | opensubtitles.py:58-59 | the year is "" when no stand-alone four-digit token exists, else four digits that occur in the name at the first such token |
| Fingerprint.YearIsFirst | opensubtitles.py:58-59 | a stand-alone token with none before it is the year |
| Fingerprint.NoYear | opensubtitles.py:59 | with no token anywhere the year is empty |
| Fingerprint.YearSplit | opensubtitles.py:58 | across a non-word character the search reads the left part first |
| Fingerprint.DeleteUnchanged | opensubtitles.py:61-66 | a deletion changes the name exactly when its pattern matches somewhere |
| Fingerprint.CutShortens | opensubtitles.py:61-66 | the left-to-right deletion scan never lengthens the text, and shortens it when a match exists |
| Fingerprint.DeleteSplit | opensubtitles.py:61-66 | nothing matches across a non-word character, so a deletion splits there |
| Fingerprint.DeletedSplit | opensubtitles.py:61-66 | the whole chain of four deletions splits at a non-word character |
| Fingerprint.RespaceMaps | opensubtitles.py:67-69 | `[-_.]` to space keeps the length, turns each separator into a space and keeps every other character |
| Fingerprint.CollapseSpaces | opensubtitles.py:70 | `\s+` to one space: no other white space remains, never two in a row, every other character comes from the input |
| Fingerprint.CollapsedIsTidy | opensubtitles.py:67-70 | collapsing a respaced name leaves it tidy |
| Fingerprint.TitleShape | opensubtitles.py:61-70 | the title is stripped, has no two white-space characters in a row, only plain spaces as white space, and none of `-`, `_`, `.` |
| FingerprintExamples.ReleaseTitle | opensubtitles.py:61-70 | `Movie.Name.2019.1080p.WEB.x264.srt` gives the title `Movie Name srt` |
| FingerprintExamples.ReleaseYear | opensubtitles.py:58-59 | the same name gives the year `2019` |
| FingerprintExamples.StandAloneYear | opensubtitles.py:58-59 | `2019` alone is its own year |
| FingerprintExamples.GluedYear | opensubtitles.py:58-59 | `Film_2019` has no year: `_` is a word character |
| FingerprintExamples.TagInsideWord | opensubtitles.py:64-66 | the tag deletion works inside words: `Hindi` becomes `di` |
| FingerprintExamples.EpisodeCase | opensubtitles.py:62 | `S01E02` is deleted, `s01e02` is not |
| Archive.SrtNames | opensubtitles.py:55 | the `.srt` filter keeps only `.srt` names, all from the list, and misses none |
| Archive.FirstSrtSpec | opensubtitles.py:55 | no name exactly when no `.srt` member exists (the `IndexError`), otherwise the `.srt` name at the lowest index |
| Archive.FirstSrtIsHead | opensubtitles.py:55 | the scan equals the head of the filtered list |
| CsvIndex.IndexFile.Open | opensubtitles.py:83-84 | a newly opened file has no rows |
| CsvIndex.IndexFile.WriteRow | opensubtitles.py:72 | `writerow` appends exactly that row |
| CsvIndex.IndexFile.Flush | opensubtitles.py:73 | `flush` makes every row written so far durable and changes no row |
| SearchOffsets.PageCount | opensubtitles-crawler.py:89 | 0 pages for limit <= 0, else the least n with 40n >= limit |
| SearchOffsets.RangeClosedForm | opensubtitles-crawler.py:89 | `range(from, limit, 40)` has PageCount(limit-from) elements, the k-th being from+40k |
| SearchOffsets.OffsetsShape | opensubtitles.py:28 | the offsets are 0, 40, 80, and so on, all in [0, limit), ceil(limit/40) of them, none when limit <= 0 |
| OpenSubtitlesCrawler.CrawlLimit | opensubtitles-crawler.py:86 | an absent or zero `--limit` falls back to the total, which may be unreadable; any other value is used as given |
| OpenSubtitlesCrawler.IdSegment | opensubtitles-crawler.py:36 | the last path segment of a matching href is its digit run |
| OpenSubtitlesCrawler.LinkIdsAreDigits | opensubtitles-crawler.py:36 | every id is a non-empty digit string, and prefix plus id is one of the anchors' hrefs |
| OpenSubtitlesCrawler.LinkIdsConcat | opensubtitles-crawler.py:36 | ids follow anchor order |
| OpenSubtitlesCrawler.CrawlRowsAreIds | opensubtitles-crawler.py:89-92 | every crawled row is one field, a non-empty digit string |
| OpenSubtitlesCrawler.CrawlStopsAtMissingPage | opensubtitles-crawler.py:89-97 | a page that cannot be fetched ends the crawl, and the rows of earlier pages stay |
| OpenSubtitlesCrawler.WriteIds | opensubtitles-crawler.py:91-92 | one `[id]` row per link, in order |
| OpenSubtitlesCrawler.Crawl | opensubtitles-crawler.py:89-92 | the rows written are those of the offsets in order, and `completed` holds exactly when every page could be fetched |
| OpenSubtitlesCrawler.CrawlCommand | opensubtitles-crawler.py:84-92 | when the needed total cannot be read, no index is opened and the crawl does not complete; otherwise a new index holds the rows of the effective limit's offsets and no header |
| OpenSubtitlesCrawler.OutputPathOfId | opensubtitles-crawler.py:65 | a digit id is written to `subtitles/<id>.txt` |
| OpenSubtitlesCrawler.OutputPathInjective | opensubtitles-crawler.py:65 | different ids never share an output file |
| OpenSubtitlesCrawler.SubtitleStore.Write | opensubtitles-crawler.py:67-68 | opening with "w" and writing replaces that file's contents and changes no other file |
| OpenSubtitlesCrawler.ExtractedElsewhere | opensubtitles-crawler.py:61-68 | extraction writes no file other than the id's output path |
| OpenSubtitlesCrawler.LastSrtWins | opensubtitles-crawler.py:61-68 | when every `.srt` member decodes, the last one's normalised text is the file's content; with no `.srt` member nothing changes |
| OpenSubtitlesCrawler.OverwriteTwice | opensubtitles-crawler.py:67-68 | a second write to a path replaces the first |
| OpenSubtitlesCrawler.UndecodableStops | opensubtitles-crawler.py:63-70 | a member that does not decode ends the loop; later members are not read |
| OpenSubtitlesCrawler.DownloadAndExtract | opensubtitles-crawler.py:55-70 | the files after the loop are exactly what the member loop gives, or unchanged when the download fails |
| OpenSubtitlesCrawler.DownloadedElsewhere | opensubtitles-crawler.py:72-77 | only the output files of ids read from the index can change |
| OpenSubtitlesCrawler.DownloadSubtitles | opensubtitles-crawler.py:72-77 | every stripped index line is downloaded in turn, and a failing id is skipped |
| OpenSubtitlesCrawler.IdReadBack | opensubtitles-crawler.py:76 | an id row written with CRLF strips back to the id |
| OpenSubtitlesCrawler.NewlineHrefAccepted | opensubtitles-crawler.py:36 | as written, `/en/subtitleserve/sub/12\n` passes the filter and yields the id `12\n`, which is not all digits |
| OpenSubtitlesCrawler.FullMatchIsAsWrittenWithoutNewline | opensubtitles-crawler.py:36 | the full match is what the filter accepts, minus the trailing-newline case |
| OpenSubtitles.DownloadIdOfRow | opensubtitles.py:46 | the element id `name<digits>` gives the download id `<digits>` |
| OpenSubtitles.Rows | opensubtitles.py:57-72 | one row per indexed name |
| OpenSubtitles.RowsAt | opensubtitles.py:57-72 | the k-th row is the fingerprint row of the k-th name |
| OpenSubtitles.PageSrts | opensubtitles.py:45-55 | a page indexes at most one name per entry |
| OpenSubtitles.CompletePageSrts | opensubtitles.py:45-55 | a page on which no entry raises indexes exactly one name per entry |
| OpenSubtitles.EntryErrorSkipsRest | opensubtitles.py:45-76 | the first entry that raises skips the rest of its page: exactly the names of the earlier entries |
| OpenSubtitles.PageSrtsAreFirstSrts | opensubtitles.py:51-55 | each indexed name is the first `.srt` member of its entry's archive, at the same position |
| OpenSubtitles.IndexSrtsAreSrtNames | opensubtitles.py:55 | every indexed name ends in `.srt` |
| OpenSubtitles.IndexSrtsConcat | opensubtitles.py:28 | the names of two runs of offsets are those of each, in order: an error on one page does not stop the crawl |
| OpenSubtitles.RowFields | opensubtitles.py:57-72 | a row has three fields; its year is "" or four digits; its title is stripped and tidy |
| OpenSubtitles.ProcessPage | opensubtitles.py:45-76 | the rows of the page's entries are appended up to the first error, and each is flushed as it is written |
| OpenSubtitles.DownloadSubtitles | opensubtitles.py:28-76 | the rows of every offset in `range(0, total, 40)` are appended, page after page |
| OpenSubtitles.Harvest | opensubtitles.py:79-86 | the file starts with the header, followed by the crawl's rows, or by nothing when the total cannot be read |
| OpenSubtitles.HeaderFirst | opensubtitles.py:83-86 | row 0 is `Title, Year, Subtitle File`; every later row is the fingerprint row of an `.srt` name |
| Podnapisi.YearOfShape | podnapisi.py:67 | the year has no `(` or `)`; it is the front, up to the next `)`, of the text after the last `(` |
| Podnapisi.TitleOfShape | podnapisi.py:68 | the title has no `(`; it is the stripped text before the first `(` and has no white space at its ends |
| Podnapisi.NoParentheses | podnapisi.py:67-68 | without parentheses the year is the whole text and the title is the text stripped |
| Podnapisi.ParenthesisedYear | podnapisi.py:67-68 | `name(year)` gives the year and the stripped name |
| Podnapisi.NameAndYear | podnapisi.py:67-68 | `Name (2019)` gives `Name` and `2019` |
| Podnapisi.PageRows | podnapisi.py:64-79 | a page gives at most one row per entry |
| Podnapisi.CompletePageRows | podnapisi.py:64-79 | a page handled in full gives one row per entry |
| Podnapisi.EntryErrorKeepsEarlierRows | podnapisi.py:64-88 | the first entry that raises leaves exactly the rows of earlier entries, and the page is not complete |
| Podnapisi.PageRowsAreEntryRows | podnapisi.py:64-79 | the k-th row of a page is the row of its k-th entry |
| Podnapisi.EntryRowShape | podnapisi.py:65-78 | a written row holds the split title text and the first `.srt` member of that entry's archive |
| Podnapisi.RequestsConsecutive | podnapisi.py:54-85 | pages requested from n on are n, n+1, n+2, and so on, with no gaps, at least one of them |
| Podnapisi.StopsAtFirstNonAdvancing | podnapisi.py:54-88 | every requested page but the last timed out or was handled in full; the last did neither |
| Podnapisi.AdvancingPageIsGiven | podnapisi.py:59-62 | a page after the known results lists nothing, so it cannot advance the loop |
| Podnapisi.EntryErrorAborts | podnapisi.py:86-88 | an entry that raises ends the whole crawl at its page, keeping the rows before it |
| Podnapisi.PageRowsShaped | podnapisi.py:64-79 | every row of a page has three fields: a title without `(`, a year without parentheses, an `.srt` name |
| Podnapisi.CrawlRowsShape | podnapisi.py:54-88 | every row of the crawl has that shape |
| Podnapisi.ProcessPage | podnapisi.py:64-79 | the page's rows are appended and flushed one by one, and `complete` holds exactly when no entry raised |
| Podnapisi.DownloadSubtitles | podnapisi.py:54-88 | the requested pages and the appended rows are those of the crawl from page 1 |
| Podnapisi.Harvest | podnapisi.py:91-107 | without a CSRF token no file is opened; otherwise the header is followed by the crawl's rows |
| Podnapisi.EmptyListingAdvancesAsWritten | podnapisi.py:58-62 | as written, waiting on an empty page times out, and the loop moves on |
| Podnapisi.EmptyPagesNeverEndAsWritten | podnapisi.py:58-85 | as written, every one of any number of trailing empty pages is requested, and none adds a row |
| Podnapisi.EmptyListingStops | podnapisi.py:60-62 | with the listing taken as loaded, the first empty page ends the loop with no rows |

## Left out

- Network, browser, archive and file I/O (aiohttp, Selenium, requests, zipfile, aiofiles) are inputs. Pages are ids or entries per offset or page number, archives are member names (with decoded text for the `download` command), and written files are a map from path to contents.
- `z.extractall(path="subtitles")` in `opensubtitles.py` and `podnapisi.py` is not modelled. Only the CSV rows are.
- The CSV format is not modelled: quoting, and the text encoding of the file. A row is a sequence of fields. `IdReadBack` assumes the CRLF line end that `csv.writer` uses.
- `os.makedirs`, argparse, asyncio scheduling, thread pools, `print` and `driver.quit` are left out.
- UTF-8 decoding is modelled as a member text that may be absent. `splitlines` works on the decoded text.
- `\d` and `\b` are ASCII-only. `re.I` folds ASCII only. Non-ASCII digits and letters are not modelled.
- The CSRF token lookup and `set_language_filter` in `podnapisi.py` become one boolean input, `csrfFound`. A failing filter request is not modelled.
- Podnapisi.PageAt: the pages after those given are empty listings. The infinite loop that the code as written enters there is shown by `Podnapisi.EmptyPagesNeverEndAsWritten` over a finite prefix.
- Podnapisi.StopsAtFirstNonAdvancing: the bound `m <= |pages|` for advancing pages is stated separately in `Podnapisi.AdvancingPageIsGiven`.
- OpenSubtitlesCrawler.LinkIds: the crawl's ids follow the full-match filter `IsSubtitleHref`, the corrected half of the first Findings row. An href with a trailing newline, which the code as written keeps, writes no row here.
- An entry element without an `id` attribute in `opensubtitles.py` (`None.replace` raises) is folded into `Unavailable` pages and failing entries.
- `s3_manager.py` is not part of this model: it is an S3 upload helper outside the harvesting core.

## Findings

| source | as written | input that shows it | evidently intended | confidence | as-written member | corrected member |
|---|---|---|---|---|---|---|
| opensubtitles-crawler.py:36 | `href=re.compile(r"^/en/subtitleserve/sub/\d+$")` is used with search, and `$` also matches before a final newline | the href `/en/subtitleserve/sub/12\n` is kept, and its id `12\n` is not a number | keep only hrefs that are the prefix followed by digits | not executed; low impact | OpenSubtitlesCrawler.NewlineHrefAccepted | OpenSubtitlesCrawler.LinkIdsAreDigits |
| podnapisi.py:58-62 | the loop waits for `presence_of_all_elements_located`, which times out on a page with no entries; the `TimeoutException` handler then moves to the next page, so `if not entries: break` never fires | any page number past the last result page | stop at the first page without entries | not executed; depends on the site serving empty listings | Podnapisi.EmptyPagesNeverEndAsWritten | Podnapisi.EmptyListingStops |
