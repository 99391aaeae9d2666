# Price-list table normaliser: a Dafny model

`main.py` reads supplier price-list PDFs. It takes each page's table, turns every data
row into a structured entry with the keys `ID`, `title`, `description`, `price` and
`attributes`, and writes one JSON file per PDF. This project models the pure core of
that program and proves properties of it:

- the keyword table `COLUMN_MAPPINGS` and the column classifier `identify_column`
  (`lexicon.dfy`, with the lower-casing and substring test in `text.dfy`);
- the per-row work of `process_table` (`rows.dfy`):
  - the first-match scan for each of the four roles;
  - the text fallback for `title` and `description`;
  - the price coercion through `float` (`price.dfy`);
  - the `attributes` dictionary, filtered by exact keyword membership;
- the row loop of `process_table` and the page loop of `extract_tables_from_pdf`
  (`tables.dfy`): empty tables and tables of at most two columns are skipped, and the
  accepted tables' entries are concatenated in page order;
- the output-file rule of `process_all_pdfs` (`files.dfy`): only names ending in
  ".pdf" are processed, and each writes to its `os.path.splitext` stem followed by
  "_data.json";
- concrete cases (`scenarios.dfy`), among them the header
  `["Cat. NO", "Type", "MRP", "Weight"]` with the row `["A100", "Widget", "25.50", "2kg"]`.

Behaviours of the code worth knowing:

- The four roles are scanned independently; there is no priority order between them.
  One column can supply several fields: in the example above, "Cat. NO" gives the
  identifier, the title and the description at once. This is because both the title
  list and the description list contain the empty keyword, which every label that is
  not `None` contains.
- The example therefore yields `title == description == "A100"`, not
  `title == "Widget"` and `description == ""`.
- A column is left out of `attributes` only when its label is, character for character,
  an entry of some keyword list. Being classified is not enough, so "Type" stays in the
  attributes even though it classifies as a title.
- A `None` label never classifies, but it is kept in `attributes` under the key `None`.

## Model

| member | source | states |
|---|---|---|
| Lexicon.Keywords | main.py:11-16 | The four keyword lists, entry for entry; no contract of its own, its facts are stated by Lexicon.IdAndPriceHaveNoEmptyKeyword, Lexicon.NamedLabelIsTitleAndDescription and Scenarios.PriceKeywordsHoldR |
| Lexicon.Classifies | main.py:18-25 | What `identify_column` answers; no contract of its own, Lexicon.IdentifyColumn is proved equal to it and Lexicon.AnyMatchIff states it as "some keyword occurs" |
| Lexicon.IsKeyword | main.py:57-60 | The exact-membership filter; no contract of its own, Lexicon.KeywordLabelClassifies and Rows.KeptColumnsExactly state what it keeps and drops |
| Lexicon.IdentifyColumn | main.py:18-25 | The answer is true exactly when the label is not `None` and, both lower-cased, some keyword of the role occurs in the label; it agrees with the specification predicate `Classifies` |
| Lexicon.AnyKeywordMatches | main.py:22-25 | The keyword loop with early return answers true exactly when some keyword of the list, lower-cased, occurs in the lower-cased label |
| Lexicon.AnyMatchIff | main.py:22-24 | Trying the keywords in order succeeds exactly when some keyword of the list matches |
| Lexicon.NamedLabelIsTitleAndDescription | main.py:13-14 | Every label that is not `None` classifies as a title and as a description, because both lists hold the empty keyword |
| Lexicon.IdAndPriceHaveNoEmptyKeyword | main.py:12-15 | The identifier and price lists do not hold the empty keyword |
| Lexicon.ListedLabelClassifies | main.py:11-23 | An entry of a role's list, used verbatim as a label, classifies for that role |
| Lexicon.KeywordLabelClassifies | main.py:57-60 | A label that the attribute filter excludes always classifies for at least one role |
| Lexicon.ExactAndSubstringTestsDiffer | main.py:13-60 | "Type" classifies as a title yet is not an exact keyword, so the classifier and the attribute filter disagree on it |
| Text.Lower | main.py:23 | `str.lower()` keeps the length, leaves no capital letter, turns each capital into its small letter and keeps every other character |
| Text.LowerIdempotent | main.py:23 | Lower-casing twice equals lower-casing once |
| Text.ContainsIffOccurs | main.py:23 | The executable substring test holds exactly when the needle occurs at some index of the haystack |
| Text.EmptyOccursEverywhere | main.py:23 | The empty string is contained in every string |
| Text.MissingCharNotContained | main.py:23 | A needle with a character the haystack lacks is not contained in it |
| Price.StripStart | main.py:49 | The result is a suffix of the input, everything dropped is whitespace, and the result does not start with whitespace |
| Price.StripEnd | main.py:49 | The result is a prefix of the input, everything dropped is whitespace, and the result does not end with whitespace |
| Price.FindPoint | main.py:49 | The answer is the first '.' of the text, or `None` when it has none |
| Price.UnsignedIffLiteral | main.py:49 | The unsigned reader succeeds exactly on digit strings with at most one point and at least one digit |
| Price.SignedIffLiteral | main.py:49 | The signed reader succeeds exactly on those literals with an optional leading sign |
| Price.ParseFloat | main.py:49 | `float` on a string; no contract of its own, Price.ParseFloatAccepts states which texts it accepts and Price.ParseShowInt and Price.ParseShowCents what it reads them as |
| Price.ParseFloatAccepts | main.py:47-51 | `float(s)` succeeds exactly when `s`, stripped of surrounding whitespace, is a decimal literal; on any other text the coercion gives `None` instead of raising |
| Price.ShowNatReads | main.py:49 | The decimal notation of a natural number is a non-empty digit string whose value is that number |
| Price.ParseShowInt | main.py:49 | Reading back the decimal notation of any integer gives that integer exactly |
| Price.ParseUnsignedPoint | main.py:49 | A literal "whole.frac" reads as the value of the whole part plus the value of the fraction |
| Price.ParseShowCents | main.py:49 | Reading back a two-decimal price such as "25.50" gives the exact number of hundredths |
| Price.LeadingJunkFails | main.py:47-51 | Text whose first character is not whitespace, a digit, a sign or a point coerces to `None` |
| Price.NotANumber | main.py:47-51 | The price cell "N/A" coerces to `None` |
| Price.SeparatorIsNoSpace | main.py:47-51 | The text "\x1c5" coerces to `None`: `float` does not skip information separators as whitespace |
| Rows.Pick | main.py:33-43 | The `next(...)` scan's cell; no contract of its own, Rows.IdFromFirstIdColumn, Rows.PriceFromFirstPriceColumn and Rows.TitleAndDescriptionFromFirstNamedColumn state which cell it is |
| Rows.TextOrEmpty | main.py:37-40 | The `isinstance(x, str)` fallback; no contract of its own, Rows.TitleAndDescriptionFromFirstNamedColumn states its effect |
| Rows.CoercePrice | main.py:46-51 | The price coercion; no contract of its own, Rows.CoercionFails states exactly when it gives `None` |
| Rows.Attributes | main.py:54-61 | The `attributes` dictionary as an ordered list of pairs; no contract of its own, Rows.AttributesAreKeptColumns, Rows.AttributesMembers and Rows.AttributeKeysDistinct state its contents |
| Rows.RowRecord | main.py:31-70 | One loop iteration's entry; no contract of its own, Rows.RecordFromFirstColumns states the whole entry |
| Rows.FirstMatch | main.py:33 | The scan answers the first column, in header order, that classifies for the role, or `None` exactly when no column does |
| Rows.FirstForUnique | main.py:33 | The first classifying column of a role is unique |
| Rows.IdFromFirstIdColumn | main.py:33 | `ID` is the cell of the first identifier column, or `None` when there is none |
| Rows.TitleAndDescriptionScansAgree | main.py:36-39 | The title and description scans give the same column: the first whose label is not `None`, or none when every label is `None` |
| Rows.TitleAndDescriptionFromFirstNamedColumn | main.py:36-40 | `title` and `description` are the text of the first column with a label, or "" when that cell is not a string or when every label is `None` |
| Rows.TitleEqualsDescription | main.py:36-40 | Every entry has the same `title` and `description` |
| Rows.CoercionFails | main.py:46-51 | The coercion gives `None` exactly on a `None` cell, on an object that is not `str`, `int` or `float`, and on text `float` rejects |
| Rows.PriceFromFirstPriceColumn | main.py:43-51 | `price` is the coerced cell of the first price column, or `None` when there is none |
| Rows.PriceIsNoneExactly | main.py:43-51 | `price` is `None` exactly when there is no price column or the first price column's cell coerces to `None` |
| Rows.KeptColumns | main.py:56-60 | The kept column indices lie within the header |
| Rows.KeptColumnsExactly | main.py:56-60 | The kept columns are exactly the columns whose label is not an exact keyword, in strictly increasing order |
| Rows.AttributesAreKeptColumns | main.py:54-61 | Entry `k` of `attributes` is the label and cell of the `k`-th kept column: header order, nothing added and nothing lost |
| Rows.AttributesMembers | main.py:54-61 | An entry is in `attributes` exactly when it is the label and cell of a column whose label is not an exact keyword |
| Rows.UnclassifiedColumnIsAttribute | main.py:54-61 | A column that classifies for no role is always in `attributes` |
| Rows.AttributeKeysDistinct | main.py:54-56 | With distinct labels, no key of `attributes` repeats |
| Rows.RecordFromFirstColumns | main.py:33-70 | The whole entry in terms of the first identifier column, the first column with a label and the first price column |
| Scenarios.PriceKeywordsHoldR | main.py:15 | Every price keyword holds the letter 'r' once lower-cased |
| Scenarios.LowerHoldsLetter | main.py:23 | A keyword holding a letter in either case holds it in lower case after lower-casing |
| Scenarios.MissingCharMatchesNone | main.py:22-24 | A label lacking a character that every keyword holds matches none of the keywords |
| Scenarios.NoRMeansNoPrice | main.py:43 | A label with no 'r' once lower-cased never classifies as a price column |
| Scenarios.NoRLabelsNoPrice | main.py:43 | Labels with no 'r' before column `n` are all passed over by the price scan |
| Scenarios.ExampleIdentifier | main.py:33 | In the example header, "Cat. NO" is the first identifier column |
| Scenarios.ExamplePriceColumn | main.py:43 | In the example header, "MRP" is the first price column |
| Scenarios.ExamplePriceValue | main.py:49 | The text "25.50" coerces to 25.5 |
| Scenarios.ExampleKept | main.py:56-60 | In the example header, "Type" and "Weight" are the kept columns |
| Scenarios.ExampleAttributes | main.py:54-61 | The example's attributes are `{"Type": "Widget", "Weight": "2kg"}`, in that order |
| Scenarios.WorkedExample | main.py:28-70 | The example row gives ID "A100", title and description "A100", price 25.5 and attributes `{"Type": "Widget", "Weight": "2kg"}` |
| Tables.ToRow | main.py:82 | The frame row has one cell per extracted cell |
| Tables.FrameOf | main.py:82 | The frame's header is the table's first row, and there is one data row per remaining row |
| Tables.Accepted | main.py:81-83 | The `if table` and `df.shape[1] > 2` tests; no contract of its own, Tables.DocumentRecordCount and Tables.NothingAccepted state what skipping a table means |
| Tables.UsableFrame | main.py:82-83 | An accepted table satisfying the model's assumptions gives a frame with distinct labels and full rows |
| Tables.TableRecordsIndex | main.py:31-71 | There is one entry per data row, in row order: entry `k` is the entry of row `k` |
| Tables.ProcessTable | main.py:28-71 | The row loop returns exactly the specification sequence of the rows' entries |
| Tables.PageRecordsIndex | main.py:80-85 | An accepted page contributes one entry per data row: entry `k` is the entry of table row `k + 1`, the header being row 0 |
| Tables.ConcatAppend | main.py:85 | Concatenating the contributions of two runs of pages equals concatenating each run's result |
| Tables.ConcatOrigin | main.py:85 | Every element of a concatenation comes from some part |
| Tables.ConcatLength | main.py:85 | The length of a concatenation is the sum of the parts' lengths |
| Tables.DocumentRecordsStep | main.py:79-85 | Processing one more page appends that page's contribution at the end |
| Tables.ExtractTables | main.py:75-86 | The page loop returns the accepted tables' entries concatenated in page order; missing, empty and narrow tables contribute nothing |
| Tables.DocumentRecordCount | main.py:80-85 | The document has one entry per data row of every accepted table and none for the other tables |
| Tables.NothingAccepted | main.py:81-83 | A document whose tables are all missing, empty or at most two columns wide yields no entries |
| Tables.DocumentRecordOrigin | main.py:79-85 | Every entry of the document is an entry of some accepted page |
| Files.LastDot | main.py:96 | The answer is the position of the last '.', or `None` when the name has none |
| Files.Stem | main.py:96 | The `splitext` stem is a prefix of the name, and the rest is the extension: empty when every '.' has only dots before it, otherwise a single '.' with no other '.' after it, following a stem that holds a character other than '.' |
| Files.OutputName | main.py:94-96 | The output file of a listed name; no contract of its own, Files.OutputNameShape, Files.OutputNameOfStem and Files.OutputNameOfDots state it |
| Files.OutputNameShape | main.py:94-96 | A name is processed exactly when it ends in ".pdf", and its output name is then a prefix of the name followed by "_data.json" |
| Files.OutputNameOfStem | main.py:96 | "<stem>.pdf" writes to "<stem>_data.json" whenever the stem has a character other than '.' |
| Files.OutputNameOfDots | main.py:96 | "<dots>.pdf" has no extension and writes to "<dots>.pdf_data.json" |
| Files.OutputNameInjective | main.py:96 | Two such names never write to the same file |
| Files.LeadingDotNamesCollide | main.py:96 | ".pdf" and ".pdf.pdf" both write to ".pdf_data.json", because `splitext` treats leading dots as part of the stem |

## Left out

- Reading PDFs (`pdfplumber`) is outside the model. Each page's `extract_table()` result is an input: `None`, or rows of cells that are strings or `None`.
- pandas is modelled only through the frame `DataFrame(table[1:], columns=table[0])` builds: a header and aligned data rows.
- Listing the input folder, creating the output folder, writing JSON and printing are I/O and are left out. Only the choice of the output name is modelled.
- The GPT-2 `pipeline` created at import time is never used by the core and is left out.
- The module-level call `process_all_pdfs(...)` with fixed Windows folder names is left out.
- Tables.ProcessTable, Tables.ExtractTables, Rows.RowRecord: require pairwise distinct header labels. With a repeated label, pandas gives a `Series` for `row[col]`: a scan that picks such a column yields that `Series` as the `ID`, "" as the title or description (the `isinstance` guards) and `None` as the price, and the attribute value becomes `str(Series)`. That branch is not modelled.
- Tables.ExtractTables: also requires every extracted row to be as long as the header, which is what `extract_table` yields. For other tables pandas pads short rows with `None` when the longest row is as wide as the header and raises an exception otherwise; neither the padding nor the failure is modelled.
- Text.Lower: lower-cases ASCII letters only. Python's `str.lower` also maps non-ASCII letters, which the keyword lists do not contain.
- Price.ParseFloat accepts only an optional sign, digits and at most one point, after skipping the whitespace `float` skips around ASCII text (space, tab, line feed, vertical tab, form feed, carriage return). Exponents, "inf", "nan", digit-separating underscores and non-ASCII digits and whitespace, all of which `float` also accepts, give `None` here.
- Price.ParseFloat: values are exact reals, so IEEE-754 rounding of the parsed value is not modelled.
- Rows.CoercePrice: the `OverflowError` that `float` raises on an integer too large for a double is not modelled. Cells from the PDF path are always strings or `None`, so no integer cell reaches it.
- Files.Stem: models `os.path.splitext` only for names without a path separator, which is what a directory listing yields.
