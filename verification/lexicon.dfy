/** The keyword table `COLUMN_MAPPINGS` and the column classifier
    `identify_column` (main.py:11-25). */
module Lexicon {
  import opened Wrappers
  import opened Text

  /** The four keys of the keyword table. */
  datatype Role = IdColumns | TitleColumns | DescriptionColumns | PriceColumns

  /** A header label: a string, or `None` for a header cell the extractor left empty. */
  type Label = Option<string>

  /** The keyword list of each role, in the order the table lists them. */
  function Keywords(role: Role): seq<string>
  {
    match role
    case IdColumns =>
      ["Cat. NO", "Order no", "Diamond Chain Part No", "Part No.", "Catalog No.", "Cat.Nos", "IDH No."]
    case TitleColumns =>
      ["type", "electrical product names", "Carding Machine", ""]
    case DescriptionColumns =>
      ["description", "Type and frame size", "Product Description", "in mm", "in inches", ""]
    case PriceColumns =>
      ["M.R.P.", "LP in INR", "PRICE IN RS", "MRP Per Metre", " Rs.   P.", "MRP Per Metre Rs.   P.",
       "Price", "MRP*  / Unit", "MRP", "price"]
  }

  /** Keyword `k` matches `name` when, both lower-cased, `k` is a substring of `name`. */
  predicate KeywordMatches(k: string, name: string)
  {
    Contains(Lower(name), Lower(k))
  }

  /** Some keyword of the list, tried in order, matches `name`. */
  predicate AnyMatch(keywords: seq<string>, name: string)
  {
    |keywords| > 0 && (KeywordMatches(keywords[0], name) || AnyMatch(keywords[1..], name))
  }

  lemma {:induction false} AnyMatchIff(keywords: seq<string>, name: string)
    ensures AnyMatch(keywords, name) <==> exists k :: k in keywords && KeywordMatches(k, name)
  {
    if |keywords| > 0 {
      AnyMatchIff(keywords[1..], name);
      if !KeywordMatches(keywords[0], name) && exists k :: k in keywords && KeywordMatches(k, name) {
        var k :| k in keywords && KeywordMatches(k, name);
        assert k in keywords[1..];
      }
    }
  }

  /** What `identify_column(column, role)` answers. */
  predicate Classifies(column: Label, role: Role)
  {
    match column
    case None => false
    case Some(name) => AnyMatch(Keywords(role), name)
  }

  /** The exact-membership test of the attribute filter: the label is, character
      for character, an entry of one of the four keyword lists. */
  predicate IsKeyword(column: Label)
  {
    column.Some? &&
    (column.value in Keywords(IdColumns) || column.value in Keywords(TitleColumns) ||
     column.value in Keywords(DescriptionColumns) || column.value in Keywords(PriceColumns))
  }

  /** `identify_column`: a `None` label is rejected; otherwise the keywords of the
      role are tried in order and the first one the label contains answers true. */
  method IdentifyColumn(column: Label, role: Role) returns (b: bool)
    ensures b <==> column.Some? && exists k :: k in Keywords(role) && Occurs(Lower(k), Lower(column.value))
    ensures b == Classifies(column, role)
  {
    if column.None? {
      return false;
    }
    b := AnyKeywordMatches(Keywords(role), column.value);
    AnyMatchIff(Keywords(role), column.value);
  }

  /** The `for keyword in ...` loop of `identify_column`, over any keyword list. */
  method AnyKeywordMatches(keywords: seq<string>, name: string) returns (b: bool)
    ensures b <==> exists k :: k in keywords && Occurs(Lower(k), Lower(name))
    ensures b <==> exists k :: k in keywords && KeywordMatches(k, name)
  {
    var lowered := Lower(name);
    for i := 0 to |keywords|
      invariant forall j :: 0 <= j < i ==> !KeywordMatches(keywords[j], name)
      invariant forall j :: 0 <= j < i ==> !Occurs(Lower(keywords[j]), lowered)
    {
      ContainsIffOccurs(lowered, Lower(keywords[i]));
      if Contains(lowered, Lower(keywords[i])) {
        assert KeywordMatches(keywords[i], name);
        assert keywords[i] in keywords && Occurs(Lower(keywords[i]), lowered);
        return true;
      }
    }
    forall k | k in keywords
      ensures !Occurs(Lower(k), lowered)
    {
      ContainsIffOccurs(lowered, Lower(k));
    }
    return false;
  }

  /** Both the title and the description list hold the empty keyword, so every
      label that is not `None` classifies for both roles. */
  lemma NamedLabelIsTitleAndDescription(name: string)
    ensures Classifies(Some(name), TitleColumns)
    ensures Classifies(Some(name), DescriptionColumns)
  {
    EmptyOccursEverywhere(Lower(name));
    assert Lower("") == "";
    assert "" in Keywords(TitleColumns) && KeywordMatches("", name);
    assert "" in Keywords(DescriptionColumns);
    AnyMatchIff(Keywords(TitleColumns), name);
    AnyMatchIff(Keywords(DescriptionColumns), name);
  }

  /** Neither list of the identifier and price roles holds the empty keyword. */
  lemma IdAndPriceHaveNoEmptyKeyword()
    ensures "" !in Keywords(IdColumns) && "" !in Keywords(PriceColumns)
  {
  }

  /** An entry of a role's list, used as a label, classifies for that role:
      once lower-cased it contains itself. */
  lemma ListedLabelClassifies(name: string, role: Role)
    requires name in Keywords(role)
    ensures Classifies(Some(name), role)
  {
    assert IsPrefix(Lower(name), Lower(name));
    assert KeywordMatches(name, name);
    AnyMatchIff(Keywords(role), name);
  }

  /** A label excluded from the attributes is always classified for some role. */
  lemma KeywordLabelClassifies(column: Label)
    requires IsKeyword(column)
    ensures Classifies(column, IdColumns) || Classifies(column, TitleColumns) ||
            Classifies(column, DescriptionColumns) || Classifies(column, PriceColumns)
  {
    var name := column.value;
    if name in Keywords(IdColumns) {
      ListedLabelClassifies(name, IdColumns);
    } else if name in Keywords(TitleColumns) {
      ListedLabelClassifies(name, TitleColumns);
    } else if name in Keywords(DescriptionColumns) {
      ListedLabelClassifies(name, DescriptionColumns);
    } else {
      ListedLabelClassifies(name, PriceColumns);
    }
  }

  /** The two tests differ: "Type" classifies as a title (it contains "type"
      once lower-cased) yet is not an exact keyword, since only "type" is listed. */
  lemma ExactAndSubstringTestsDiffer()
    ensures Classifies(Some("Type"), TitleColumns)
    ensures !IsKeyword(Some("Type"))
  {
    assert Lower("Type") == "type";
    assert IsPrefix("type", "type");
    assert "type" in Keywords(TitleColumns) && KeywordMatches("type", "Type");
    AnyMatchIff(Keywords(TitleColumns), "Type");
  }
}
