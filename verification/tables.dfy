/** `process_table` and the page loop of `extract_tables_from_pdf`
    (main.py:28-31, 64-86). */
module Tables {
  import opened Wrappers
  import opened Lexicon
  import opened Rows

  /** What `page.extract_table()` returns for a page: `None` when no table was
      found, otherwise its rows of cells (each a string or `None`), the first
      row being the header. */
  type PageTable = Option<seq<seq<Option<string>>>>

  /** The pandas frame `pd.DataFrame(table[1:], columns=table[0])`. */
  datatype Frame = Frame(columns: seq<Label>, rows: seq<Row>)

  ghost predicate WellFormed(frame: Frame)
  {
    DistinctLabels(frame.columns) &&
    forall k :: 0 <= k < |frame.rows| ==> |frame.rows[k]| == |frame.columns|
  }

  function ToCell(c: Option<string>): Cell
  {
    match c
    case None => NoneCell
    case Some(s) => Str(s)
  }

  function ToRow(cells: seq<Option<string>>): (r: Row)
    ensures |r| == |cells|
  {
    seq(|cells|, i requires 0 <= i < |cells| => ToCell(cells[i]))
  }

  /** The frame of a non-empty table: the first row as header, the rest as data. */
  function FrameOf(table: seq<seq<Option<string>>>): (f: Frame)
    requires |table| > 0
    ensures f.columns == table[0] && |f.rows| == |table| - 1
  {
    Frame(table[0], seq(|table| - 1, k requires 0 <= k < |table| - 1 => ToRow(table[k + 1])))
  }

  /** `if table:` and `if df.shape[1] > 2:` together. */
  predicate Accepted(page: PageTable)
  {
    page.Some? && |page.value| > 0 && |page.value[0]| > 2
  }

  /** What the model needs of a page: every row as long as the header, as
      `extract_table` yields them, and distinct labels in a table that is processed. */
  ghost predicate Usable(page: PageTable)
  {
    page.Some? && |page.value| > 0 ==>
      (forall k :: 0 <= k < |page.value| ==> |page.value[k]| == |page.value[0]|) &&
      (|page.value[0]| > 2 ==> DistinctLabels(page.value[0]))
  }

  lemma UsableFrame(page: PageTable)
    requires Usable(page) && Accepted(page)
    ensures WellFormed(FrameOf(page.value))
  {
  }

  /** The entries of the data rows `rows` under the header `columns`, one per row. */
  function TableRecords(columns: seq<Label>, rows: seq<Row>): seq<Record>
    requires DistinctLabels(columns)
    requires forall k :: 0 <= k < |rows| ==> |rows[k]| == |columns|
  {
    if rows == [] then []
    else TableRecords(columns, rows[..|rows| - 1]) + [RowRecord(columns, rows[|rows| - 1])]
  }

  /** One entry per data row, in row order: entry `k` is the entry of row `k`. */
  lemma {:induction false} TableRecordsIndex(columns: seq<Label>, rows: seq<Row>)
    requires DistinctLabels(columns)
    requires forall k :: 0 <= k < |rows| ==> |rows[k]| == |columns|
    ensures |TableRecords(columns, rows)| == |rows|
    ensures forall k :: 0 <= k < |rows| ==> TableRecords(columns, rows)[k] == RowRecord(columns, rows[k])
  {
    if rows != [] {
      var front := rows[..|rows| - 1];
      TableRecordsIndex(columns, front);
      var records := TableRecords(columns, rows);
      assert records == TableRecords(columns, front) + [RowRecord(columns, rows[|rows| - 1])];
      forall k | 0 <= k < |rows|
        ensures records[k] == RowRecord(columns, rows[k])
      {
        if k < |front| {
          assert front[k] == rows[k];
        }
      }
    }
  }

  /** `process_table`: the loop over `df.iterrows()`, appending each row's entry. */
  method ProcessTable(frame: Frame) returns (records: seq<Record>)
    requires WellFormed(frame)
    ensures records == TableRecords(frame.columns, frame.rows)
  {
    records := [];
    for k := 0 to |frame.rows|
      invariant records == TableRecords(frame.columns, frame.rows[..k])
    {
      assert frame.rows[..k + 1][..k] == frame.rows[..k];
      records := records + [RowRecord(frame.columns, frame.rows[k])];
    }
    assert frame.rows[..|frame.rows|] == frame.rows;
  }

  /** The entries one page contributes: none unless its table is accepted. */
  ghost function PageRecords(page: PageTable): seq<Record>
    requires Usable(page)
  {
    if Accepted(page) then
      var frame := FrameOf(page.value);
      TableRecords(frame.columns, frame.rows)
    else []
  }

  /** The parts, joined end to end in order. */
  function Concat<T>(parts: seq<seq<T>>): seq<T>
  {
    if parts == [] then [] else parts[0] + Concat(parts[1..])
  }

  lemma {:induction false} ConcatAppend<T>(front: seq<seq<T>>, back: seq<seq<T>>)
    ensures Concat(front + back) == Concat(front) + Concat(back)
  {
    if front == [] {
      assert front + back == back;
    } else {
      assert (front + back)[1..] == front[1..] + back;
      ConcatAppend(front[1..], back);
    }
  }

  /** Every element of the concatenation comes from some part. */
  lemma {:induction false} ConcatOrigin<T>(parts: seq<seq<T>>, n: nat)
    requires n < |Concat(parts)|
    ensures exists p, k :: 0 <= p < |parts| && 0 <= k < |parts[p]| && Concat(parts)[n] == parts[p][k]
  {
    if n < |parts[0]| {
      assert Concat(parts)[n] == parts[0][n];
    } else {
      ConcatOrigin(parts[1..], n - |parts[0]|);
      var p, k :| 0 <= p < |parts[1..]| && 0 <= k < |parts[1..][p]| &&
        Concat(parts[1..])[n - |parts[0]|] == parts[1..][p][k];
      assert parts[p + 1] == parts[1..][p];
    }
  }

  /** The length of the concatenation is the sum of the parts' lengths. */
  function TotalLength<T>(parts: seq<seq<T>>): nat
  {
    if parts == [] then 0 else |parts[0]| + TotalLength(parts[1..])
  }

  lemma {:induction false} ConcatLength<T>(parts: seq<seq<T>>)
    ensures |Concat(parts)| == TotalLength(parts)
  {
    if parts != [] {
      ConcatLength(parts[1..]);
    }
  }

  /** Each page's contribution, page by page. */
  ghost function PageContributions(pages: seq<PageTable>): (r: seq<seq<Record>>)
    requires forall k :: 0 <= k < |pages| ==> Usable(pages[k])
    ensures |r| == |pages|
  {
    seq(|pages|, p requires 0 <= p < |pages| => PageRecords(pages[p]))
  }

  /** The entries of a whole document: the pages' contributions in page order. */
  ghost function DocumentRecords(pages: seq<PageTable>): seq<Record>
    requires forall k :: 0 <= k < |pages| ==> Usable(pages[k])
  {
    Concat(PageContributions(pages))
  }

  /** Adding a page adds its contribution at the end. */
  lemma DocumentRecordsStep(pages: seq<PageTable>, k: nat)
    requires forall k :: 0 <= k < |pages| ==> Usable(pages[k])
    requires k < |pages|
    ensures DocumentRecords(pages[..k + 1]) == DocumentRecords(pages[..k]) + PageRecords(pages[k])
  {
    var longer, shorter := PageContributions(pages[..k + 1]), PageContributions(pages[..k]);
    forall p | 0 <= p <= k
      ensures longer[p] == (shorter + [PageRecords(pages[k])])[p]
    {
      assert pages[..k + 1][p] == pages[p];
      if p < k {
        assert pages[..k][p] == pages[p];
      }
    }
    assert longer == shorter + [PageRecords(pages[k])];
    ConcatAppend(PageContributions(pages[..k]), [PageRecords(pages[k])]);
    assert Concat([PageRecords(pages[k])]) == PageRecords(pages[k]) + Concat([]);
  }

  /** The page loop of `extract_tables_from_pdf`: accepted tables' entries,
      concatenated in page order. */
  method ExtractTables(pages: seq<PageTable>) returns (all: seq<Record>)
    requires forall k :: 0 <= k < |pages| ==> Usable(pages[k])
    ensures all == DocumentRecords(pages)
  {
    all := [];
    for k := 0 to |pages|
      invariant all == DocumentRecords(pages[..k])
    {
      var table := pages[k];
      if table.Some? && |table.value| > 0 {
        var frame := FrameOf(table.value);
        if |frame.columns| > 2 {
          var records := ProcessTable(frame);
          all := all + records;
        }
      }
      DocumentRecordsStep(pages, k);
    }
    assert pages[..|pages|] == pages;
  }

  /** One entry per data row of every accepted table, and none for the others. */
  lemma DocumentRecordCount(pages: seq<PageTable>)
    requires forall k :: 0 <= k < |pages| ==> Usable(pages[k])
    ensures |DocumentRecords(pages)| == TotalLength(PageContributions(pages))
    ensures forall p :: 0 <= p < |pages| ==>
      |PageContributions(pages)[p]| == if Accepted(pages[p]) then |pages[p].value| - 1 else 0
  {
    ConcatLength(PageContributions(pages));
    forall p | 0 <= p < |pages| && Accepted(pages[p])
      ensures |PageRecords(pages[p])| == |pages[p].value| - 1
    {
      PageRecordsIndex(pages[p]);
    }
  }

  /** A document whose tables are all missing, empty or at most two columns
      wide yields no entries. */
  lemma {:induction false} NothingAccepted(pages: seq<PageTable>)
    requires forall k :: 0 <= k < |pages| ==> Usable(pages[k]) && !Accepted(pages[k])
    ensures DocumentRecords(pages) == []
  {
    if pages != [] {
      NothingAccepted(pages[1..]);
      assert PageContributions(pages) == [[]] + PageContributions(pages[1..]);
    }
  }

  /** Entry `k` of an accepted page is the entry of the table's data row `k`
      (row `k + 1` of the extracted table, the header being row 0). */
  lemma PageRecordsIndex(page: PageTable)
    requires Usable(page) && Accepted(page)
    ensures |PageRecords(page)| == |page.value| - 1
    ensures forall k :: 0 <= k < |page.value| - 1 ==>
      PageRecords(page)[k] == RowRecord(page.value[0], ToRow(page.value[k + 1]))
  {
    var frame := FrameOf(page.value);
    TableRecordsIndex(frame.columns, frame.rows);
  }

  /** Every entry of a document is an entry of some accepted page. */
  lemma DocumentRecordOrigin(pages: seq<PageTable>, n: nat)
    requires forall k :: 0 <= k < |pages| ==> Usable(pages[k])
    requires n < |DocumentRecords(pages)|
    ensures exists p, k :: (0 <= p < |pages| && Accepted(pages[p]) && 0 <= k < |PageRecords(pages[p])| &&
      DocumentRecords(pages)[n] == PageRecords(pages[p])[k])
  {
    ConcatOrigin(PageContributions(pages), n);
  }
}
