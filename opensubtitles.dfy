// The Selenium crawler of opensubtitles.org (opensubtitles.py): walk the
// search-result pages by offset, download the archive of every entry, and
// index the first `.srt` member of each with the title and year read from
// its name.
//
// The site is given as data: the entry-row element ids of each result page
// by offset, and the member names of the archive behind each download link.

module OpenSubtitles {
  import opened Options
  import opened Text
  import opened Archive
  import opened CsvIndex
  import opened SearchOffsets
  import opened Fingerprint

  /** A search-result page: the `id` attributes of its entry rows, or `Unavailable` when loading it or waiting for its rows fails. */
  datatype ResultPage = Listed(elementIds: seq<string>) | Unavailable

  /** The download link of an id is this prefix followed by the id. */
  const DownloadBase: string := "https://www.opensubtitles.org/en/subtitleserve/sub/"

  /** `entry.get_attribute("id").replace("name", "")` */
  function DownloadId(elementId: string): string {
    ReplaceAll(elementId, "name", "")
  }

  /** The entry row `name<digits>` gives the id `<digits>`. */
  lemma DownloadIdOfRow(digits: string)
    requires AllDigits(digits)
    ensures DownloadId("name" + digits) == digits
  {
    ReplaceFront("name", digits, "");
    forall i ensures !OccursAt(digits, "name", i) {
      if 0 <= i && i + 4 <= |digits| {
        assert digits[i..i + 4][0] == digits[i];
      }
    }
    ReplaceAbsent(digits, "name", "");
  }

  /** The download link of an entry row. */
  function DownloadLink(elementId: string): string {
    DownloadBase + DownloadId(elementId)
  }

  /** The CSV row `[title, year, srt_file]` for the chosen member name. */
  function IndexRow(srt: string): seq<string> {
    [Title(srt), Year(srt), srt]
  }

  /** The rows for the chosen member names, in order. */
  function Rows(srts: seq<string>): (rows: seq<seq<string>>)
    ensures |rows| == |srts|
  {
    if srts == [] then [] else [IndexRow(srts[0])] + Rows(srts[1..])
  }

  /** The `k`-th row is the row of the `k`-th name. */
  lemma {:induction false} RowsAt(srts: seq<string>, k: nat)
    requires k < |srts|
    ensures Rows(srts)[k] == IndexRow(srts[k])
  {
    if k > 0 {
      RowsAt(srts[1..], k - 1);
    }
  }

  /** Rows of two runs of names are the rows of each, in order. */
  lemma {:induction false} RowsConcat(a: seq<string>, b: seq<string>)
    ensures Rows(a + b) == Rows(a) + Rows(b)
  {
    if a == [] {
      assert a + b == b;
    } else {
      assert (a + b)[0] == a[0];
      assert (a + b)[1..] == a[1..] + b;
      RowsConcat(a[1..], b);
      AppendAssoc([IndexRow(a[0])], Rows(a[1..]), Rows(b));
    }
  }

  /**
   * The member name an entry indexes, or `None` when handling it raises:
   * the download or the ZIP parsing fails (`archives` has no entry for the
   * link) or the archive has no `.srt` member.
   */
  function EntrySrt(elementId: string, archives: map<string, seq<string>>): Option<string> {
    var link := DownloadLink(elementId);
    if link !in archives then None else FirstSrt(archives[link])
  }

  /** The names one page indexes: its entries in order, up to the first that raises, which skips the rest of the page. */
  function PageSrts(elementIds: seq<string>, archives: map<string, seq<string>>): (srts: seq<string>)
    ensures |srts| <= |elementIds|
  {
    if elementIds == [] then []
    else match EntrySrt(elementIds[0], archives)
      case None => []
      case Some(srt) => [srt] + PageSrts(elementIds[1..], archives)
  }

  /** A page on which no entry raises indexes one name per entry. */
  lemma {:induction false} CompletePageSrts(elementIds: seq<string>, archives: map<string, seq<string>>)
    requires forall j :: 0 <= j < |elementIds| ==> EntrySrt(elementIds[j], archives).Some?
    ensures |PageSrts(elementIds, archives)| == |elementIds|
  {
    if elementIds != [] {
      assert EntrySrt(elementIds[0], archives).Some?;
      assert forall j :: 0 <= j < |elementIds| - 1 ==> elementIds[1..][j] == elementIds[j + 1];
      CompletePageSrts(elementIds[1..], archives);
    }
  }

  /** The result page at an offset; a page missing from `pages` could not be loaded. */
  function PageAt(pages: map<int, ResultPage>, offset: int): ResultPage {
    if offset in pages then pages[offset] else Unavailable
  }

  /** The names the page at one offset indexes: none when the page cannot be loaded. */
  function OffsetSrts(pages: map<int, ResultPage>, archives: map<string, seq<string>>, offset: int): seq<string> {
    match PageAt(pages, offset)
    case Unavailable => []
    case Listed(ids) => PageSrts(ids, archives)
  }

  /** The names of all offsets, one page after the other: an error on one page does not stop the crawl. */
  function IndexSrts(offsets: seq<int>, pages: map<int, ResultPage>, archives: map<string, seq<string>>): seq<string>
  {
    if offsets == [] then []
    else OffsetSrts(pages, archives, offsets[0]) + IndexSrts(offsets[1..], pages, archives)
  }

  /** The names of two runs of offsets are those of each, in order. */
  lemma {:induction false} IndexSrtsConcat(a: seq<int>, b: seq<int>, pages: map<int, ResultPage>, archives: map<string, seq<string>>)
    ensures IndexSrts(a + b, pages, archives) == IndexSrts(a, pages, archives) + IndexSrts(b, pages, archives)
  {
    if a == [] {
      assert a + b == b;
    } else {
      assert (a + b)[1..] == a[1..] + b;
      IndexSrtsConcat(a[1..], b, pages, archives);
      AppendAssoc(OffsetSrts(pages, archives, a[0]), IndexSrts(a[1..], pages, archives), IndexSrts(b, pages, archives));
    }
  }

  /**
   * The first entry that raises skips the rest of its page: the page gives
   * exactly the names of the entries before it.
   */
  lemma {:induction false} EntryErrorSkipsRest(elementIds: seq<string>, archives: map<string, seq<string>>, k: nat)
    requires k < |elementIds| && EntrySrt(elementIds[k], archives).None?
    requires forall j :: 0 <= j < k ==> EntrySrt(elementIds[j], archives).Some?
    ensures PageSrts(elementIds, archives) == PageSrts(elementIds[..k], archives)
    ensures |PageSrts(elementIds, archives)| == k
  {
    if k > 0 {
      assert elementIds[1..][..k - 1] == elementIds[..k][1..];
      EntryErrorSkipsRest(elementIds[1..], archives, k - 1);
    }
  }

  /** Each name a page indexes is the first `.srt` member of the archive of the entry at the same position. */
  lemma {:induction false} PageSrtsAreFirstSrts(elementIds: seq<string>, archives: map<string, seq<string>>)
    ensures forall k :: 0 <= k < |PageSrts(elementIds, archives)| ==>
      DownloadLink(elementIds[k]) in archives && FirstSrt(archives[DownloadLink(elementIds[k])]) == Some(PageSrts(elementIds, archives)[k])
  {
    if elementIds != [] && EntrySrt(elementIds[0], archives).Some? {
      PageSrtsAreFirstSrts(elementIds[1..], archives);
      var srts := PageSrts(elementIds, archives);
      forall k | 0 < k < |srts| ensures srts[k] == PageSrts(elementIds[1..], archives)[k - 1] && elementIds[k] == elementIds[1..][k - 1] {
      }
    }
  }

  /** Every indexed name ends in `.srt`. */
  lemma {:induction false} IndexSrtsAreSrtNames(offsets: seq<int>, pages: map<int, ResultPage>, archives: map<string, seq<string>>)
    ensures forall k :: 0 <= k < |IndexSrts(offsets, pages, archives)| ==> IsSrtName(IndexSrts(offsets, pages, archives)[k])
  {
    if offsets != [] {
      IndexSrtsAreSrtNames(offsets[1..], pages, archives);
      var head := OffsetSrts(pages, archives, offsets[0]);
      if PageAt(pages, offsets[0]).Listed? {
        PageSrtsAreFirstSrts(PageAt(pages, offsets[0]).elementIds, archives);
      }
      var srts := IndexSrts(offsets, pages, archives);
      forall k | 0 <= k < |srts| ensures IsSrtName(srts[k]) {
        if k >= |head| {
          assert srts[k] == IndexSrts(offsets[1..], pages, archives)[k - |head|];
        }
      }
    }
  }

  /** A row's year is empty or four digits and occurs in the name; its title is stripped and tidy. */
  lemma RowFields(srt: string)
    ensures var row := IndexRow(srt);
      |row| == 3 && row[2] == srt &&
      (row[1] == "" || (|row[1]| == 4 && AllDigits(row[1]))) &&
      (row[0] == [] || (!IsSpace(row[0][0]) && !IsSpace(row[0][|row[0]| - 1]))) &&
      Tidy(row[0])
  {
    TitleShape(srt);
  }

  /**
   * The entry loop of one page: one row per entry, each flushed at once,
   * up to the first entry that raises.
   */
  method ProcessPage(elementIds: seq<string>, archives: map<string, seq<string>>, index: IndexFile)
    requires index.Valid()
    modifies index
    ensures index.Valid()
    ensures index.rows == old(index.rows) + Rows(PageSrts(elementIds, archives))
    ensures index.flushed == if |index.rows| == |old(index.rows)| then old(index.flushed) else |index.rows|
  {
    var k := 0;
    while k < |elementIds|
      invariant 0 <= k <= |elementIds|
      invariant index.Valid()
      invariant index.rows + Rows(PageSrts(elementIds[k..], archives)) == old(index.rows) + Rows(PageSrts(elementIds, archives))
      invariant |index.rows| == |old(index.rows)| + k
      invariant index.flushed == if |index.rows| == |old(index.rows)| then old(index.flushed) else |index.rows|
    {
      var link := DownloadLink(elementIds[k]);
      if link !in archives {
        return;
      }
      var srt := FirstSrt(archives[link]);
      if srt.None? {
        return;
      }
      var row := IndexRow(srt.value);
      assert elementIds[k..][1..] == elementIds[k + 1..];
      ghost var rest := PageSrts(elementIds[k + 1..], archives);
      assert PageSrts(elementIds[k..], archives) == [srt.value] + rest;
      RowsConcat([srt.value], rest);
      assert Rows([srt.value]) == [row];
      AppendAssoc(index.rows, [row], Rows(rest));
      index.WriteRow(row);
      index.Flush();
      k := k + 1;
    }
  }

  /**
   * `download_subtitles`: every offset of `range(0, total_entries, 40)` in
   * turn; a page that cannot be loaded, or an entry that raises, is
   * reported and the loop goes on with the next offset.
   */
  method DownloadSubtitles(totalEntries: int, pages: map<int, ResultPage>, archives: map<string, seq<string>>, index: IndexFile)
    requires index.Valid()
    modifies index
    ensures index.Valid()
    ensures index.rows == old(index.rows) + Rows(IndexSrts(Offsets(totalEntries), pages, archives))
    ensures index.flushed == if |index.rows| == |old(index.rows)| then old(index.flushed) else |index.rows|
  {
    var offset := 0;
    while offset < totalEntries
      invariant index.Valid()
      invariant index.rows + Rows(IndexSrts(Range(offset, totalEntries), pages, archives)) == old(index.rows) + Rows(IndexSrts(Offsets(totalEntries), pages, archives))
      invariant |index.rows| >= |old(index.rows)|
      invariant index.flushed == if |index.rows| == |old(index.rows)| then old(index.flushed) else |index.rows|
      decreases totalEntries - offset
    {
      ghost var here := OffsetSrts(pages, archives, offset);
      ghost var rest := IndexSrts(Range(offset + PageSize, totalEntries), pages, archives);
      OffsetStep(offset, totalEntries, pages, archives);
      RowsConcat(here, rest);
      AppendAssoc(index.rows, Rows(here), Rows(rest));
      if offset in pages && pages[offset].Listed? {
        ProcessPage(pages[offset].elementIds, archives, index);
      } else {
        assert here == [];
        assert Rows(here) == [];
        assert index.rows + Rows(here) == index.rows;
      }
      offset := offset + PageSize;
    }
  }

  /** The offsets from `offset` on index the page at `offset` first, then the rest. */
  lemma OffsetStep(offset: int, totalEntries: int, pages: map<int, ResultPage>, archives: map<string, seq<string>>)
    requires offset < totalEntries
    ensures IndexSrts(Range(offset, totalEntries), pages, archives)
      == OffsetSrts(pages, archives, offset) + IndexSrts(Range(offset + PageSize, totalEntries), pages, archives)
  {
    assert Range(offset, totalEntries)[0] == offset;
    assert Range(offset, totalEntries)[1..] == Range(offset + PageSize, totalEntries);
  }

  /**
   * `main`: the index starts with its header row, then the rows of the
   * crawl. `totalEntries` is `None` when the total cannot be read from the
   * first page, which raises before any offset is visited.
   */
  method Harvest(totalEntries: Option<int>, pages: map<int, ResultPage>, archives: map<string, seq<string>>) returns (index: IndexFile)
    ensures fresh(index) && index.Valid()
    ensures index.rows == [Header] + match totalEntries
      case None => []
      case Some(total) => Rows(IndexSrts(Offsets(total), pages, archives))
  {
    index := new IndexFile.Open();
    index.WriteRow(Header);
    assert index.rows == [Header];
    if totalEntries.Some? {
      DownloadSubtitles(totalEntries.value, pages, archives, index);
    } else {
      assert index.rows == [Header] + [];
    }
  }

  /** The header is the first row; every row after it is the fingerprint row of a `.srt` name, in crawl order. */
  lemma HeaderFirst(rows: seq<seq<string>>, offsets: seq<int>, pages: map<int, ResultPage>, archives: map<string, seq<string>>)
    requires rows == [Header] + Rows(IndexSrts(offsets, pages, archives))
    ensures rows[0] == ["Title", "Year", "Subtitle File"]
    ensures forall k :: 1 <= k < |rows| ==>
      var srt := IndexSrts(offsets, pages, archives)[k - 1]; IsSrtName(srt) && rows[k] == IndexRow(srt)
  {
    IndexSrtsAreSrtNames(offsets, pages, archives);
    HeaderThenRows(rows, Header, IndexSrts(offsets, pages, archives));
  }

  /** The rows after a first row are the rows of the names, one by one. */
  lemma HeaderThenRows(rows: seq<seq<string>>, head: seq<string>, srts: seq<string>)
    requires rows == [head] + Rows(srts)
    ensures rows[0] == head
    ensures forall k :: 1 <= k < |rows| ==> rows[k] == IndexRow(srts[k - 1])
  {
    var tail := Rows(srts);
    assert rows[1..] == tail;
    forall k | 1 <= k < |rows| ensures rows[k] == IndexRow(srts[k - 1]) {
      assert rows[k] == tail[k - 1];
      RowsAt(srts, k - 1);
    }
  }
}
