/** The per-row part of `process_table` (main.py:32-70): the four field scans,
    the title/description text fallback, the price coercion and the attribute
    dictionary. */
module Rows {
  import opened Wrappers
  import opened Text
  import opened Lexicon
  import opened Price

  /** A cell of a pandas row: a `str`, an `int`, a `float`, `None`, or any other object. */
  datatype Cell = Str(s: string) | Int(i: int) | Float(x: real) | NoneCell | Other

  /** A data row, one cell per header column. */
  type Row = seq<Cell>

  /** One structured entry, with the five keys the source emits. Attributes are
      the dictionary's entries in insertion order. */
  datatype Record = Record(id: Cell, title: string, description: string, price: Option<real>,
                           attributes: seq<(Label, Cell)>)

  /** pandas gives a `Series` for a label that occurs twice; this model covers
      headers whose labels are pairwise distinct. */
  ghost predicate DistinctLabels(header: seq<Label>)
  {
    forall i, j :: 0 <= i < j < |header| ==> header[i] != header[j]
  }

  /** Column `i` is the first one, in header order, that classifies for `role`. */
  ghost predicate FirstFor(header: seq<Label>, role: Role, i: int)
  {
    0 <= i < |header| && Classifies(header[i], role) &&
    forall j :: 0 <= j < i ==> !Classifies(header[j], role)
  }

  /** No column classifies for `role`. */
  ghost predicate NoneFor(header: seq<Label>, role: Role)
  {
    forall j :: 0 <= j < |header| ==> !Classifies(header[j], role)
  }

  /** The generator scan `next((... for col in df.columns if identify_column(col, role)), None)`,
      as a column index. */
  function FirstMatch(header: seq<Label>, role: Role): (r: Option<nat>)
    ensures r.Some? ==> FirstFor(header, role, r.value)
    ensures r.None? ==> NoneFor(header, role)
  {
    if header == [] then None
    else if Classifies(header[0], role) then Some(0)
    else match FirstMatch(header[1..], role)
      case None => None
      case Some(i) => Some(i + 1)
  }

  /** The cell the scan for `role` yields; `None` when no column classifies. */
  function Pick(header: seq<Label>, row: Row, role: Role): Cell
    requires |row| == |header|
  {
    match FirstMatch(header, role)
    case None => NoneCell
    case Some(i) => row[i]
  }

  /** `x if isinstance(x, str) else ""`. */
  function TextOrEmpty(c: Cell): string
  {
    if c.Str? then c.s else ""
  }

  /** The price coercion: `None` stays `None`; a `str`, `int` or `float` goes
      through `float`, whose `ValueError` becomes `None`; anything else is `None`. */
  function CoercePrice(c: Cell): Option<real>
  {
    match c
    case NoneCell => None
    case Str(s) => ParseFloat(s)
    case Int(i) => Some(i as real)
    case Float(x) => Some(x)
    case Other => None
  }

  /** The columns, from index `from` on and in header order, whose label is not
      exactly an entry of any keyword list. */
  function KeptColumns(header: seq<Label>, from: nat): (r: seq<nat>)
    requires from <= |header|
    ensures forall k :: 0 <= k < |r| ==> from <= r[k] < |header|
    decreases |header| - from
  {
    if from == |header| then []
    else if IsKeyword(header[from]) then KeptColumns(header, from + 1)
    else [from] + KeptColumns(header, from + 1)
  }

  /** The kept columns are, in increasing order, exactly the columns from
      `from` on whose label is not exactly a keyword. */
  lemma {:induction false} KeptColumnsExactly(header: seq<Label>, from: nat)
    requires from <= |header|
    ensures forall k :: 0 <= k < |KeptColumns(header, from)| ==> !IsKeyword(header[KeptColumns(header, from)[k]])
    ensures forall k, l :: 0 <= k < l < |KeptColumns(header, from)| ==>
      KeptColumns(header, from)[k] < KeptColumns(header, from)[l]
    ensures forall j :: from <= j < |header| && !IsKeyword(header[j]) ==> j in KeptColumns(header, from)
    decreases |header| - from
  {
    if from < |header| {
      KeptColumnsExactly(header, from + 1);
    }
  }

  /** The `attributes` dictionary comprehension, over the columns from index
      `from` on: label and raw cell of every column whose label is not exactly
      an entry of a keyword list, in header order. */
  function AttributesFrom(header: seq<Label>, row: Row, from: nat): seq<(Label, Cell)>
    requires |row| == |header| && from <= |header|
    decreases |header| - from
  {
    if from == |header| then []
    else if IsKeyword(header[from]) then AttributesFrom(header, row, from + 1)
    else [(header[from], row[from])] + AttributesFrom(header, row, from + 1)
  }

  /** The `attributes` entry of a row. */
  function Attributes(header: seq<Label>, row: Row): seq<(Label, Cell)>
    requires |row| == |header|
  {
    AttributesFrom(header, row, 0)
  }

  /** Entry `k` of the attributes is the label and cell of the `k`-th kept
      column: the attributes are the kept columns, all of them, in header order. */
  lemma {:induction false} AttributesAreKeptColumns(header: seq<Label>, row: Row, from: nat)
    requires |row| == |header| && from <= |header|
    ensures |AttributesFrom(header, row, from)| == |KeptColumns(header, from)|
    ensures forall k :: 0 <= k < |KeptColumns(header, from)| ==>
      AttributesFrom(header, row, from)[k] == (header[KeptColumns(header, from)[k]], row[KeptColumns(header, from)[k]])
    decreases |header| - from
  {
    if from < |header| {
      AttributesAreKeptColumns(header, row, from + 1);
      var rest, cols := AttributesFrom(header, row, from + 1), KeptColumns(header, from + 1);
      if !IsKeyword(header[from]) {
        var r := AttributesFrom(header, row, from);
        assert r == [(header[from], row[from])] + rest;
        assert KeptColumns(header, from) == [from] + cols;
        forall k | 1 <= k < |r|
          ensures r[k] == (header[([from] + cols)[k]], row[([from] + cols)[k]])
        {
          assert r[k] == rest[k - 1] && ([from] + cols)[k] == cols[k - 1];
        }
      }
    }
  }

  /** An entry is in the attributes exactly when it is the label and cell of a
      column whose label is not exactly a keyword. */
  lemma AttributesMembers(header: seq<Label>, row: Row)
    requires |row| == |header|
    ensures forall i :: 0 <= i < |header| && !IsKeyword(header[i]) ==> (header[i], row[i]) in Attributes(header, row)
    ensures forall e :: e in Attributes(header, row) ==>
      !IsKeyword(e.0) && exists i :: 0 <= i < |header| && e == (header[i], row[i])
  {
    var cols := KeptColumns(header, 0);
    var r := Attributes(header, row);
    KeptColumnsExactly(header, 0);
    AttributesAreKeptColumns(header, row, 0);
    forall i | 0 <= i < |header| && !IsKeyword(header[i])
      ensures (header[i], row[i]) in r
    {
      var k :| 0 <= k < |cols| && cols[k] == i;
      assert r[k] == (header[i], row[i]);
    }
    forall e | e in r
      ensures !IsKeyword(e.0) && exists i :: 0 <= i < |header| && e == (header[i], row[i])
    {
      var k :| 0 <= k < |r| && r[k] == e;
      assert e == (header[cols[k]], row[cols[k]]);
    }
  }

  /** One loop iteration of `process_table`: the structured entry of one row. */
  function RowRecord(header: seq<Label>, row: Row): Record
    requires |row| == |header| && DistinctLabels(header)
  {
    Record(
      Pick(header, row, IdColumns),
      TextOrEmpty(Pick(header, row, TitleColumns)),
      TextOrEmpty(Pick(header, row, DescriptionColumns)),
      CoercePrice(Pick(header, row, PriceColumns)),
      Attributes(header, row))
  }

  /** Column `i` is the first one whose label is not `None`. */
  ghost predicate FirstNamed(header: seq<Label>, i: int)
  {
    0 <= i < |header| && header[i].Some? && forall j :: 0 <= j < i ==> header[j].None?
  }

  /** The scans for the title and the description both stop at the first
      column whose label is not `None`, whatever that label says. */
  lemma {:induction false} TitleAndDescriptionScansAgree(header: seq<Label>)
    ensures FirstMatch(header, TitleColumns) == FirstMatch(header, DescriptionColumns)
    ensures forall i :: FirstNamed(header, i) ==> FirstMatch(header, TitleColumns) == Some(i)
    ensures (forall j :: 0 <= j < |header| ==> header[j].None?) ==> FirstMatch(header, TitleColumns) == None
  {
    if header != [] {
      TitleAndDescriptionScansAgree(header[1..]);
      if header[0].Some? {
        NamedLabelIsTitleAndDescription(header[0].value);
      }
      forall i | FirstNamed(header, i)
        ensures FirstMatch(header, TitleColumns) == Some(i)
      {
        if i > 0 {
          assert FirstNamed(header[1..], i - 1);
        }
      }
    }
  }

  /** `title` and `description` are the text of the first column whose label
      is not `None`, or "" when that cell is not a `str` or no label is present. */
  lemma TitleAndDescriptionFromFirstNamedColumn(header: seq<Label>, row: Row)
    requires |row| == |header| && DistinctLabels(header)
    ensures forall i :: FirstNamed(header, i) ==>
      RowRecord(header, row).title == TextOrEmpty(row[i]) &&
      RowRecord(header, row).description == TextOrEmpty(row[i])
    ensures (forall j :: 0 <= j < |header| ==> header[j].None?) ==>
      RowRecord(header, row).title == "" && RowRecord(header, row).description == ""
  {
    TitleAndDescriptionScansAgree(header);
  }

  /** So every entry carries the same string under `title` and `description`. */
  lemma TitleEqualsDescription(header: seq<Label>, row: Row)
    requires |row| == |header| && DistinctLabels(header)
    ensures RowRecord(header, row).title == RowRecord(header, row).description
  {
    TitleAndDescriptionScansAgree(header);
  }

  /** The scan has one answer: two first columns for the same role coincide. */
  lemma FirstForUnique(header: seq<Label>, role: Role, i: int, j: int)
    requires FirstFor(header, role, i) && FirstFor(header, role, j)
    ensures i == j
  {
  }

  /** The coercion fails exactly on `None`, on other objects and on text that
      is not a decimal literal. */
  lemma CoercionFails(c: Cell)
    ensures CoercePrice(c).None? <==>
      c.NoneCell? || c.Other? || (c.Str? && !DecimalLiteral(Strip(c.s)))
  {
    if c.Str? {
      ParseFloatAccepts(c.s);
    }
  }

  /** `price` is `None` in exactly four situations: no price column; the picked
      cell is `None`; it is neither `str`, `int` nor `float`; or it is text
      `float` rejects. */
  lemma PriceIsNoneExactly(header: seq<Label>, row: Row)
    requires |row| == |header| && DistinctLabels(header)
    ensures RowRecord(header, row).price.None? <==>
      NoneFor(header, PriceColumns) ||
      exists i :: FirstFor(header, PriceColumns, i) &&
        (row[i].NoneCell? || row[i].Other? || (row[i].Str? && !DecimalLiteral(Strip(row[i].s))))
  {
    var price := RowRecord(header, row).price;
    match FirstMatch(header, PriceColumns)
    case None =>
      assert price == None;
    case Some(i) =>
      assert price == CoercePrice(row[i]);
      CoercionFails(row[i]);
      assert !NoneFor(header, PriceColumns);
      forall j | FirstFor(header, PriceColumns, j)
        ensures j == i
      {
        FirstForUnique(header, PriceColumns, i, j);
      }
  }

  /** A column that classifies for no role at all always lands in the attributes. */
  lemma UnclassifiedColumnIsAttribute(header: seq<Label>, row: Row, i: nat)
    requires |row| == |header| && i < |header|
    requires !Classifies(header[i], IdColumns) && !Classifies(header[i], TitleColumns)
    requires !Classifies(header[i], DescriptionColumns) && !Classifies(header[i], PriceColumns)
    ensures (header[i], row[i]) in Attributes(header, row)
  {
    if IsKeyword(header[i]) {
      KeywordLabelClassifies(header[i]);
    }
    AttributesMembers(header, row);
  }

  /** With distinct labels the attributes never repeat a key: they form a dictionary. */
  lemma AttributeKeysDistinct(header: seq<Label>, row: Row)
    requires |row| == |header| && DistinctLabels(header)
    ensures forall k, l :: 0 <= k < l < |Attributes(header, row)| ==>
      Attributes(header, row)[k].0 != Attributes(header, row)[l].0
  {
    var cols := KeptColumns(header, 0);
    var r := Attributes(header, row);
    KeptColumnsExactly(header, 0);
    AttributesAreKeptColumns(header, row, 0);
    forall k, l | 0 <= k < l < |r|
      ensures r[k].0 != r[l].0
    {
      assert r[k].0 == header[cols[k]] && r[l].0 == header[cols[l]];
    }
  }

  /** `ID` is the cell of the first identifier column, or `None` when no
      column classifies as an identifier. */
  lemma IdFromFirstIdColumn(header: seq<Label>, row: Row)
    requires |row| == |header| && DistinctLabels(header)
    ensures forall i :: FirstFor(header, IdColumns, i) ==> RowRecord(header, row).id == row[i]
    ensures NoneFor(header, IdColumns) ==> RowRecord(header, row).id == NoneCell
  {
    forall i | FirstFor(header, IdColumns, i)
      ensures RowRecord(header, row).id == row[i]
    {
      FirstForUnique(header, IdColumns, i, FirstMatch(header, IdColumns).value);
    }
  }

  /** `price` is the coerced cell of the first price column, or `None` when no
      column classifies as a price. */
  lemma PriceFromFirstPriceColumn(header: seq<Label>, row: Row)
    requires |row| == |header| && DistinctLabels(header)
    ensures forall i :: FirstFor(header, PriceColumns, i) ==> RowRecord(header, row).price == CoercePrice(row[i])
    ensures NoneFor(header, PriceColumns) ==> RowRecord(header, row).price == None
  {
    forall i | FirstFor(header, PriceColumns, i)
      ensures RowRecord(header, row).price == CoercePrice(row[i])
    {
      FirstForUnique(header, PriceColumns, i, FirstMatch(header, PriceColumns).value);
    }
  }

  /** The whole entry in terms of the first identifier column, the first
      labelled column and the first price column. */
  lemma RecordFromFirstColumns(header: seq<Label>, row: Row, id: nat, named: nat, price: nat)
    requires |row| == |header| && DistinctLabels(header)
    requires FirstFor(header, IdColumns, id) && FirstNamed(header, named) && FirstFor(header, PriceColumns, price)
    ensures RowRecord(header, row) ==
      Record(row[id], TextOrEmpty(row[named]), TextOrEmpty(row[named]), CoercePrice(row[price]),
             Attributes(header, row))
  {
    IdFromFirstIdColumn(header, row);
    TitleAndDescriptionFromFirstNamedColumn(header, row);
    PriceFromFirstPriceColumn(header, row);
  }
}
