/**
 * Turning the extracted records into worksheet rows (`save_news_to_excel`),
 * and reading such a worksheet back. Creating the directory and the file,
 * and the error handling around saving, are file I/O and not modelled: the
 * rows the method appends are its result.
 */
module Persistence {
  import opened Wrappers
  import opened Extraction

  /** A worksheet cell: text, an integer, a boolean, or empty (Python's `None`). */
  datatype Cell = Text(text: string) | Number(number: int) | Flag(flag: bool) | Blank

  type Row = seq<Cell>

  const Header: Row := [Text("title"), Text("date"), Text("description"),
                        Text("image_src"), Text("search_count"), Text("contains_money")]

  function ImageCell(src: Option<string>): Cell
  {
    match src
    case Some(s) => Text(s)
    case None => Blank
  }

  /** The row for one record, columns in the header's order. */
  function RowOf(a: Article): (row: Row)
    ensures |row| == |Header|
  {
    [Text(a.title), Text(a.date), Text(a.description), ImageCell(a.imageSrc),
     Number(a.searchCount), Flag(a.containsMoney)]
  }

  /** `rows` is what is written for `news`: nothing at all, or the header then one row per record in order. */
  predicate WritesRecords(news: seq<Article>, rows: seq<Row>)
  {
    if news == [] then rows == []
    else
      && |rows| == |news| + 1
      && rows[0] == Header
      && forall k :: 0 <= k < |news| ==> rows[k + 1] == RowOf(news[k])
  }

  /**
   * `save_news_to_excel`: an empty list writes nothing; otherwise the header
   * row is appended, then one row per record.
   */
  method SaveNewsToExcel(news: seq<Article>) returns (rows: seq<Row>)
    ensures WritesRecords(news, rows)
  {
    rows := [];
    if news == [] {
      return;
    }
    rows := rows + [Header];
    for i := 0 to |news|
      invariant |rows| == i + 1 && rows[0] == Header
      invariant forall k :: 0 <= k < i ==> rows[k + 1] == RowOf(news[k])
    {
      rows := rows + [RowOf(news[i])];
    }
  }

  // ---------------------------------------------------------------------
  // Reading a worksheet back
  // ---------------------------------------------------------------------

  function DecodeRow(row: Row): Option<Article>
  {
    if |row| == 6 && row[0].Text? && row[1].Text? && row[2].Text? && (row[3].Text? || row[3].Blank?)
       && row[4].Number? && row[4].number >= 0 && row[5].Flag?
    then
      var image := if row[3].Text? then Some(row[3].text) else None;
      Some(Article(row[0].text, row[1].text, row[2].text, image, row[4].number, row[5].flag))
    else None
  }

  function DecodeRows(rows: seq<Row>): Option<seq<Article>>
  {
    if rows == [] then Some([])
    else
      match (DecodeRow(rows[0]), DecodeRows(rows[1..]))
      case (Some(a), Some(rest)) => Some([a] + rest)
      case _ => None
  }

  /** The records stored in a worksheet: none if it is empty, else the rows under the header. */
  function ReadSheet(rows: seq<Row>): Option<seq<Article>>
  {
    if rows == [] then Some([])
    else if rows[0] != Header then None
    else DecodeRows(rows[1..])
  }

  lemma {:induction false} DecodeRowsOf(news: seq<Article>, body: seq<Row>)
    requires |body| == |news|
    requires forall k :: 0 <= k < |news| ==> body[k] == RowOf(news[k])
    ensures DecodeRows(body) == Some(news)
  {
    if news != [] {
      DecodeRowsOf(news[1..], body[1..]);
      assert DecodeRow(body[0]) == Some(news[0]);
      assert [news[0]] + news[1..] == news;
    }
  }

  /**
   * Reading back what was written for `news` gives `news` again: header
   * plus one row per record, columns in the fixed order, nothing lost.
   */
  lemma SheetRoundTrip(news: seq<Article>, rows: seq<Row>)
    requires WritesRecords(news, rows)
    ensures ReadSheet(rows) == Some(news)
    ensures |rows| == if news == [] then 0 else |news| + 1
  {
    if news != [] {
      DecodeRowsOf(news, rows[1..]);
    }
  }

  /**
   * From result list to worksheet: when no element of the list is readable
   * nothing is written; otherwise one row per readable element plus the header.
   */
  lemma WrittenRowsForElements(elements: seq<NewsElement>, term: string, rows: seq<Row>)
    requires WritesRecords(Extract(elements, term), rows)
    ensures |rows| == if Extract(elements, term) == [] then 0 else |Extract(elements, term)| + 1
    ensures |rows| <= |elements| + 1
    ensures ReadSheet(rows) == Some(Extract(elements, term))
  {
    ExtractLength(elements, term);
    SheetRoundTrip(Extract(elements, term), rows);
  }
}
