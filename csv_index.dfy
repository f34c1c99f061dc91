// The CSV index file as the crawlers use it: rows are appended through a
// `csv.writer`, and the podnapisi and Selenium crawlers flush the file after
// every row.

module CsvIndex {
  /** The header row `Title,Year,Subtitle File` of the title/year index. */
  const Header: seq<string> := ["Title", "Year", "Subtitle File"]

  /**
   * An index file open for writing. `rows` are all rows handed to the
   * writer, in order; the first `flushed` of them have reached the file.
   */
  class IndexFile {
    var rows: seq<seq<string>>
    var flushed: nat

    predicate Valid()
      reads this
    {
      flushed <= |rows|
    }

    /** `open(..., "w")`: the file starts empty. */
    constructor Open()
      ensures Valid()
      ensures rows == [] && flushed == 0
    {
      rows := [];
      flushed := 0;
    }

    /** `writer.writerow(row)`: the row is buffered after the earlier ones. */
    method WriteRow(row: seq<string>)
      requires Valid()
      modifies this
      ensures Valid()
      ensures rows == old(rows) + [row] && flushed == old(flushed)
    {
      rows := rows + [row];
    }

    /** `file.flush()`: every buffered row reaches the file. */
    method Flush()
      requires Valid()
      modifies this
      ensures Valid()
      ensures rows == old(rows) && flushed == |rows|
    {
      flushed := |rows|;
    }
  }
}
