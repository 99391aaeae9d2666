/** Concrete rows and tables worked through the model. */
module Scenarios {
  import opened Wrappers
  import opened Text
  import opened Lexicon
  import opened Price
  import opened Rows

  /** `k` holds the letter `c` in lower or upper case. */
  ghost predicate HoldsLetter(k: string, c: char)
    requires 'a' <= c <= 'z'
  {
    exists i :: 0 <= i < |k| && LowerChar(k[i]) == c
  }

  lemma LowerHoldsLetter(keywords: seq<string>, c: char)
    requires 'a' <= c <= 'z'
    requires forall k :: k in keywords ==> HoldsLetter(k, c)
    ensures forall k :: k in keywords ==> c in Lower(k)
  {
    forall k | k in keywords
      ensures c in Lower(k)
    {
      var i :| 0 <= i < |k| && LowerChar(k[i]) == c;
      assert Lower(k)[i] == c;
    }
  }

  /** A label that lacks a character every keyword of a list holds matches none of them. */
  lemma MissingCharMatchesNone(keywords: seq<string>, name: string, c: char)
    requires forall k :: k in keywords ==> c in Lower(k)
    requires c !in Lower(name)
    ensures forall k :: k in keywords ==> !KeywordMatches(k, name)
  {
    forall k | k in keywords
      ensures !KeywordMatches(k, name)
    {
      MissingCharNotContained(Lower(name), Lower(k), c);
    }
  }

  lemma PriceKeywordsHoldR()
    ensures forall k :: k in Keywords(PriceColumns) ==> HoldsLetter(k, 'r')
  {
    var ks := Keywords(PriceColumns);
    assert LowerChar(ks[0][2]) == 'r' && LowerChar(ks[1][8]) == 'r' && LowerChar(ks[2][1]) == 'r';
    assert LowerChar(ks[3][1]) == 'r' && LowerChar(ks[4][1]) == 'r' && LowerChar(ks[5][1]) == 'r';
    assert LowerChar(ks[6][1]) == 'r' && LowerChar(ks[7][1]) == 'r' && LowerChar(ks[8][1]) == 'r';
    assert LowerChar(ks[9][1]) == 'r';
    forall k | k in ks
      ensures HoldsLetter(k, 'r')
    {
      var j :| 0 <= j < |ks| && ks[j] == k;
      var i := if j == 0 then 2 else if j == 1 then 8 else 1;
      assert LowerChar(k[i]) == 'r';
    }
  }

  /** Every price keyword holds an 'r' once lower-cased, so a label without
      one never classifies as a price column. */
  lemma NoRMeansNoPrice(name: string)
    requires 'r' !in Lower(name)
    ensures !Classifies(Some(name), PriceColumns)
  {
    PriceKeywordsHoldR();
    LowerHoldsLetter(Keywords(PriceColumns), 'r');
    MissingCharMatchesNone(Keywords(PriceColumns), name, 'r');
    AnyMatchIff(Keywords(PriceColumns), name);
  }

  /** Labels without an 'r' ahead of column `n` leave the price scan running past them. */
  lemma NoRLabelsNoPrice(header: seq<Label>, n: nat)
    requires n <= |header|
    requires forall j :: 0 <= j < n ==> header[j].Some? && 'r' !in Lower(header[j].value)
    ensures forall j :: 0 <= j < n ==> !Classifies(header[j], PriceColumns)
  {
    forall j | 0 <= j < n
      ensures !Classifies(header[j], PriceColumns)
    {
      NoRMeansNoPrice(header[j].value);
    }
  }

  const ExampleHeader: seq<Label> := [Some("Cat. NO"), Some("Type"), Some("MRP"), Some("Weight")]
  const ExampleRow: Row := [Str("A100"), Str("Widget"), Str("25.50"), Str("2kg")]

  lemma ExampleIdentifier()
    ensures FirstFor(ExampleHeader, IdColumns, 0)
  {
    assert IsPrefix(Lower("Cat. NO"), Lower("Cat. NO"));
    assert KeywordMatches("Cat. NO", "Cat. NO");
    AnyMatchIff(Keywords(IdColumns), "Cat. NO");
  }

  lemma ExamplePriceColumn()
    ensures FirstFor(ExampleHeader, PriceColumns, 2)
  {
    assert Lower("Cat. NO") == "cat. no" && Lower("Type") == "type";
    NoRLabelsNoPrice(ExampleHeader, 2);
    ListedLabelClassifies("MRP", PriceColumns);
  }

  lemma ExamplePriceValue()
    ensures CoercePrice(Str("25.50")) == Some(25.5)
  {
    assert ShowNat(25) == "25";
    assert ShowCents(2550) == "25.50";
    ParseShowCents(2550);
  }

  lemma ExampleKept()
    ensures KeptColumns(ExampleHeader, 0) == [1, 3]
  {
    assert IsKeyword(Some("Cat. NO"));
    assert !IsKeyword(Some("Type"));
    assert IsKeyword(Some("MRP"));
    assert !IsKeyword(Some("Weight"));
    assert KeptColumns(ExampleHeader, 4) == [];
    assert KeptColumns(ExampleHeader, 3) == [3];
    assert KeptColumns(ExampleHeader, 2) == [3];
    assert KeptColumns(ExampleHeader, 1) == [1, 3];
  }

  lemma ExampleAttributes()
    ensures Attributes(ExampleHeader, ExampleRow) ==
      [(Some("Type"), Str("Widget")), (Some("Weight"), Str("2kg"))]
  {
    ExampleKept();
    AttributesAreKeptColumns(ExampleHeader, ExampleRow, 0);
  }

  /** The header ["Cat. NO", "Type", "MRP", "Weight"] with the row
      ["A100", "Widget", "25.50", "2kg"]: the first column supplies the
      identifier, the title and the description at once; "MRP" supplies the
      price; "Type" survives into the attributes because only "type" is listed. */
  lemma WorkedExample()
    ensures DistinctLabels(ExampleHeader)
    ensures RowRecord(ExampleHeader, ExampleRow) ==
      Record(Str("A100"), "A100", "A100", Some(25.5),
             [(Some("Type"), Str("Widget")), (Some("Weight"), Str("2kg"))])
  {
    ExampleIdentifier();
    ExamplePriceColumn();
    assert FirstNamed(ExampleHeader, 0);
    RecordFromFirstColumns(ExampleHeader, ExampleRow, 0, 0, 2);
    ExamplePriceValue();
    ExampleAttributes();
  }
}
