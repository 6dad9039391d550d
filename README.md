# Roster normalisation of the ANS procedure list, modelled in Dafny

The repository downloads two annexes of the ANS (Agência Nacional de Saúde
Suplementar) list of health procedures. It then extracts the tables of
Annex I and turns them into one normalised roster. This project models the
core of that roster pipeline in two variants:

- `utils/pdf_processor.py`: `identify_rol_tables`, `process_rol_tables`,
  `clean_table_data`, `identify_columns` and the table steps of
  `process_anexo_i`.
- `Ans.py`: the table part of `extract_pdf_data`, its copy of
  `identify_columns` and the link search in `find_and_download_anexos`.

Both variants use the constants of `config/settings.py`.

A pandas DataFrame is a value of `Frames.Table`:

- a header, which is a sequence of labels;
- rows, which are sequences of `Option<string>` cells, with `None` for a
  null cell.

The pandas operations the pipeline relies on are written out:

- `pd.concat`: the union of labels in order of first appearance, with
  absent cells null.
- `dropna(how='all')`, `rename`, `df[col] = None` and `drop_duplicates`.

The model keeps the source's behaviour where it is surprising:

- `identify_columns` tests `GRUP` before `SUBGRUP`. Every cell containing
  SUBGRUP also contains GRUP, so no column is ever mapped to SUBGRUPO
  (`ColumnIdentifier.SubgroupUnreachable`).
- The mapping is computed once, over the concatenation of all kept tables,
  not per table.
- A column that no marker hits keeps its own label and stays in the output.
- The output columns are the renamed columns in their original places,
  followed by the standard columns that were missing, in the order of
  `std_cols`.
- A concatenation with no rows left after `dropna` is not an error:
  `process_rol_tables` returns an empty frame with the standard columns.
- `rename` may give two columns the same label. If that label is an
  abbreviation code and the frame has rows, `df[col]` is a frame and the
  lambda's truth test raises ValueError. `clean_table_data` lets the error
  propagate (`Normaliser.Failure.AmbiguousColumn`). `extract_pdf_data`
  catches it and returns None.
- With zero rows, pandas swallows that error and the frame is unchanged.

Modules, one per file:

- `Options` (`options.dfy`)
- `Text` (`text.dfy`): ASCII upper-casing and substring search.
- `Settings` (`settings.dfy`)
- `Frames` (`frames.dfy`)
- `ColumnIdentifier` (`columns.dfy`)
- `RelevanceFilter` (`relevance.dfy`)
- `Normaliser` (`normaliser.dfy`): the utils pipeline.
- `AnsExtraction` (`ans.dfy`)
- `AnnexLinks` (`links.dfy`)

Each loop of the source is a method, proved against a function that
specifies it. The properties are proved as lemmas about those functions.

## Model

| member | source | states |
|---|---|---|
| Settings.AbbreviationKeys | config/settings.py:32-40 | ABBREVIATIONS has exactly the seven keys OD, AMB, HCO, HSO, REF, PAC, DUT, each once |
| Settings.DescriptionsAreNotCodes | config/settings.py:32-40 | no description equals any code |
| Settings.SampleEntries | config/settings.py:33-39 | OD maps to "Seg. Odontológica", DUT to "Diretrizes de Utilização", and RN is not a code |
| Settings.Lookup | config/settings.py:32-40 | a description is found exactly for a key of the table, and it is that key's entry |
| Settings.PatternsIndependent | config/settings.py:14-15 | neither link pattern is a substring of the other |
| AnsExtraction.SameAbbreviations | Ans.py:39-47 | Ans.py's ABBREVIATIONS equals config/settings.py's, in the same order, with distinct codes |
| AnnexLinks.SamePatterns | Ans.py:29-30 | Ans.py's link patterns equal config/settings.py's and neither contains the other |
| Text.UpperIsUpper | utils/pdf_processor.py:66 | an upper-cased header holds no lower-case ASCII letter, and upper-casing it again changes nothing |
| Text.ContainsPosition | utils/pdf_processor.py:69-71 | a substring hit has a position where the pattern occurs |
| Text.OccursContains | utils/pdf_processor.py:69-71 | a pattern occurring at a position is a substring hit |
| Text.ContainsTransitive | utils/pdf_processor.py:163-166 | a string containing q contains every substring of q |
| RelevanceFilter.SelectRolTables | utils/pdf_processor.py:57-77 | the loop returns RolTables of the input; every kept table is an input table with at least 8 columns |
| RelevanceFilter.RolTablesMembers | utils/pdf_processor.py:57-77 | a table is kept iff it is an input table with at least 8 columns and an upper-cased header containing a keyword |
| RelevanceFilter.RolTablesAppend | utils/pdf_processor.py:59-74 | filtering distributes over concatenation of inputs, so kept tables stay in input order |
| RelevanceFilter.NarrowTablesRejected | utils/pdf_processor.py:64 | a table with fewer than 8 columns is never kept, whatever its headers |
| RelevanceFilter.KeywordHeaderAccepted | utils/pdf_processor.py:64-71 | a table of at least 8 columns with a header containing GRUPO or PROCEDIMENTO is kept by both variants |
| RelevanceFilter.VariantsDifferByRn | Ans.py:208-214 | what extract_pdf_data keeps, identify_rol_tables keeps; a table is kept only by the latter iff it has at least 8 columns, a header containing RN, and none containing PROCEDIMENTO or GRUPO |
| ColumnIdentifier.UpperValuesExact | utils/pdf_processor.py:140 | the column content is exactly the upper-cased non-null cells |
| ColumnIdentifier.AnyContainsHit | utils/pdf_processor.py:143-168 | `any(col_content.str.contains(m))` holds iff some content string contains m |
| ColumnIdentifier.ClassifyIsFirstMarker | utils/pdf_processor.py:143-168 | the if/elif chain equals taking the first marker of PROCED, RN, VIG, AMB, OD, HCO, HSO, REF, PAC, DUT, GRUP, SUBGRUP, CAP that hits |
| ColumnIdentifier.FirstMarkerWins | utils/pdf_processor.py:143-168 | if marker k hits and no earlier one does, the role is marker k's; if none hits, there is no role |
| ColumnIdentifier.Rank | utils/pdf_processor.py:143-168 | every role has its position in the marker order |
| ColumnIdentifier.SubgroupCellsStopAtGroup | utils/pdf_processor.py:163-166 | a column with a cell containing SUBGRUP gets GRUPO or an earlier role |
| ColumnIdentifier.SubgroupUnreachable | utils/pdf_processor.py:165-166 | no column content is classified SUBGRUPO |
| ColumnIdentifier.IdentifyColumns | utils/pdf_processor.py:131-170 | the loop builds ColumnMapping; every key is a column label; SUBGRUPO is never a value |
| ColumnIdentifier.MappingCharacterised | utils/pdf_processor.py:139-168 | with distinct labels, a label is a key iff its column got a role, and it maps to that role's name |
| ColumnIdentifier.IdentifyColumnsCharacterised | Ans.py:247-281 | for a well-formed frame, a label is mapped iff some marker hits its column, and it maps to the first hitting marker's name |
| ColumnIdentifier.NoSubgroupRole | Ans.py:276-279 | no column of any frame gets the SUBGRUPO role |
| Frames.NonNullRows | utils/pdf_processor.py:101 | the kept rows are exactly the input rows with a non-null cell |
| Frames.NonNullRowsAppend | utils/pdf_processor.py:101 | dropna works row by row: dropping from a concatenation is dropping from each part and concatenating, so the kept rows stay in order |
| Frames.NonNullRowsOccurrences | Ans.py:225 | a row with a value occurs as often after dropna as before, so repeats survive |
| Frames.DropAllNullRows | utils/pdf_processor.py:101 | same header, no all-null row, rectangular frames stay rectangular |
| Frames.UnionHeaders | utils/pdf_processor.py:90 | for tables each with distinct labels, the concatenated header has no repeats and holds exactly the labels of the input tables |
| Frames.Concat | utils/pdf_processor.py:90 | the concatenation of rectangular tables, each with distinct labels, is rectangular with distinct labels |
| Frames.ConcatAligns | utils/pdf_processor.py:90 | for tables each with distinct labels, row i of table p becomes the row after all earlier tables' rows, realigned to the union header |
| Frames.ConcatSingle | Ans.py:222 | concatenating one well-formed table gives that table |
| Frames.RenameEmpty | utils/pdf_processor.py:108 | renaming with an empty mapping changes nothing, so the `if column_mapping:` guard is immaterial |
| Frames.Dedup | utils/pdf_processor.py:126 | no repeated rows, and the same set of rows as the input |
| Frames.DedupKeepsFirstOrder | utils/pdf_processor.py:126 | a row kept before the first occurrence of another stays before it |
| Frames.DedupDistinct | utils/pdf_processor.py:126 | rows without repeats are left as they are |
| Normaliser.StandardColumnsAreRoleNames | utils/pdf_processor.py:112-113 | std_cols are the names of the 13 roles, position by position, and every role appears |
| Normaliser.RoleNameIsStandard | utils/pdf_processor.py:112-113 | every role name is a standard column |
| Normaliser.WithColumnsShape | utils/pdf_processor.py:116-118 | adding missing columns keeps every column and cell; adds only absent labels of the list; the new cells are null; every listed label is then present |
| Normaliser.WithColumnsPresent | utils/pdf_processor.py:116-118 | nothing is added when all listed labels are present |
| Normaliser.AddMissingColumns | utils/pdf_processor.py:116-118 | the loop yields WithColumns and every listed column is present |
| Normaliser.WithColumnsOccurrences | utils/pdf_processor.py:116-118 | adding missing columns never duplicates a label |
| Normaliser.ExpandColumnIdempotent | utils/pdf_processor.py:123 | rewriting a code column a second time changes nothing when the description differs from the code |
| Normaliser.ExpandStep | utils/pdf_processor.py:122-123 | a successful step keeps the header and the row count |
| Normaliser.ExpandAll | utils/pdf_processor.py:121-123 | success keeps header and row count; any failure is an ambiguous code column |
| Normaliser.ExpandAbbreviations | utils/pdf_processor.py:121-123 | the loop yields ExpandAll of the frame |
| Normaliser.ExpandedCell | utils/pdf_processor.py:123 | a cell is null after expansion iff it was null before |
| Normaliser.ExpandAllCells | utils/pdf_processor.py:121-123 | expansion fails iff the frame has rows and a code labels two columns; otherwise each cell becomes its code's description exactly when its column is that code and it equals the code, and is unchanged otherwise |
| Normaliser.ExpandAllIdempotent | utils/pdf_processor.py:121-123 | with no description equal to its code, expanding twice equals expanding once |
| Normaliser.AbbreviationExpansionIdempotent | utils/pdf_processor.py:121-123 | with the source's ABBREVIATIONS, expansion is idempotent |
| Normaliser.RenamedHeader | utils/pdf_processor.py:101-109 | with distinct labels, column j is renamed to the first marker hitting its non-null cells after dropna, and keeps its label when none does |
| Normaliser.Widened | utils/pdf_processor.py:116-118 | the renamed header is a prefix of the widened header, and the row count is that after dropping all-null rows |
| Normaliser.CleanedWith | utils/pdf_processor.py:98-128 | a failure is always an ambiguous code column; a success is rectangular with at least the input's columns |
| Normaliser.CleanTableData | utils/pdf_processor.py:98-128 | the method returns Cleaned of the input |
| Normaliser.CleanedFailure | utils/pdf_processor.py:121-123 | cleaning fails iff rows remain after dropna and, after renaming, some code labels two columns |
| Normaliser.CleanedColumns | utils/pdf_processor.py:105-118 | the renamed columns stay in place, none dropped; after them come only missing standard labels; every standard column is present |
| Normaliser.CleanedAddedColumnsNull | utils/pdf_processor.py:116-118 | the added columns hold only nulls |
| Normaliser.CleanedRows | utils/pdf_processor.py:101-126 | no all-null row, no repeated row, and each row is a non-empty input row with its code cells expanded |
| Normaliser.CleanedRowOrder | utils/pdf_processor.py:126 | surviving rows keep their first-occurrence order |
| Normaliser.CleanedRoster | utils/pdf_processor.py:98-128 | with the source's constants, every role name is a column, rows are non-null and distinct, and failure happens iff a code labels two columns of a frame with rows |
| Normaliser.ProcessRolTables | utils/pdf_processor.py:80-95 | the result is NoRelevantTables iff there are no tables; otherwise it is Cleaned of the concatenation |
| Normaliser.RolTablesWellFormed | utils/pdf_processor.py:57-77 | the kept tables are input tables, so they are well formed |
| Normaliser.ProcessAnexoTables | utils/pdf_processor.py:211-218 | the method returns UtilsRoster: select, concatenate, clean |
| Normaliser.UtilsRosterNeedsRolTable | utils/pdf_processor.py:211-218 | no roster for want of tables iff no extracted table passes the filter |
| AnsExtraction.ExtractPdfData | Ans.py:205-244 | the method returns AnsRoster: select with PROCEDIMENTO/GRUPO, concatenate, dropna, rename, expand; any error gives None |
| AnsExtraction.AnsRosterNone | Ans.py:221-244 | None iff no table passes the filter, or rows remain and a code labels two columns after renaming |
| AnsExtraction.ExpansionKeepsRows | Ans.py:233-235 | expansion keeps rows with a value non-null |
| AnsExtraction.AnsFrameShape | Ans.py:221-237 | the header is exactly the renamed header (no standard column added); every non-null row is kept, repeats included; code cells are expanded |
| AnsExtraction.WideningAgrees | utils/pdf_processor.py:116-123 | if expansion of the renamed frame succeeds, cleaning succeeds, and its expanded rows extend those rows |
| AnsExtraction.CleanedExtendsExpanded | utils/pdf_processor.py:112-126 | the cleaned frame's header starts with the renamed header; its rows are the expanded renamed rows, extended and without repeats |
| AnsExtraction.VariantsAgree | Ans.py:221-237 | when extract_pdf_data returns a frame, process_rol_tables on the same tables succeeds and agrees with it on the shared columns, up to repeats |
| AnnexLinks.LastMatch | Ans.py:114-126 | whatever is found matches the pattern test |
| AnnexLinks.ScanLinks | Ans.py:114-126 | the loop leaves, for each annex, the last href matching its pattern |
| AnnexLinks.FindAnnexLinks | Ans.py:114-132 | the method returns AnnexUrls: both URLs, or None when either is unset |
| AnnexLinks.LastMatchNone | Ans.py:114-126 | no URL is found iff no href matches |
| AnnexLinks.LastMatchIsLast | Ans.py:114-126 | a matching href with no later match is the one found |
| AnnexLinks.LastMatchFromHrefs | Ans.py:114-126 | the URL found is a matching href that no later href overrides |
| AnnexLinks.AnnexUrlsFound | Ans.py:130-132 | the search succeeds iff both patterns match some href |
| AnnexLinks.OneHrefForBoth | Ans.py:119-125 | one href matching both patterns is taken for both annexes |

## Left out

- **Table extraction.** `extract_tables_from_pdf` and the Docling part of
  `extract_pdf_data` are a foreign library. The extracted tables are the
  model's input.
- **Browser and network.** Selenium, `requests`, the page fetch and the
  downloads in `find_and_download_anexos` are network I/O. The anchors' hrefs
  are the model's input.
- **Reading an href.** An anchor whose `get_attribute` raised is modelled as a
  missing href. The loop logs it and skips it either way.
- **File and database sinks.** CSV, zip and database writing, `main`, logging
  and directory creation are I/O and sequencing.
- **Text.Upper** upper-cases only ASCII a–z. Python's `str.upper` also maps
  other letters, and a few of them (ß, ı, ſ, ligatures) become ASCII letters
  that could complete a keyword or marker.
- **Text.Contains** is plain substring search. `str.contains` treats its
  argument as a regular expression, which is the same for these all-letter
  markers.
- **Tables that repeat a label.** `Frames.UnionHeaders`, `Frames.Concat`,
  `Frames.ConcatAligns`, `Normaliser.Processed`, `Normaliser.ProcessRolTables`
  and `AnsExtraction.AnsFrame` require every table they concatenate to have
  distinct labels (`WellFormed`, `AllWellFormed`). `Normaliser.UtilsRoster`,
  `Normaliser.ProcessAnexoTables`, `Normaliser.UtilsRosterNeedsRolTable`,
  `AnsExtraction.AnsRoster`, `AnsExtraction.ExtractPdfData` and
  `AnsExtraction.AnsRosterNone` require it only of the tables the relevance
  filter keeps; a rejected table may repeat a label, since the filter reads
  only its column count and upper-cased labels. In
  pandas, concatenating tables whose headers differ and one of which repeats
  a label raises. When all headers are the same, the repeated label survives
  the concatenation, `df[col]` in `identify_columns` is then a frame and
  `.str` raises AttributeError (utils/pdf_processor.py:140, Ans.py:252);
  utils propagates it and `extract_pdf_data` returns None (Ans.py:242-244).
  Neither error is modelled.
- **Cells.** A cell is an optional string. pandas dtypes, NaN versus None and
  `str()` of non-string cells are not modelled.
- **Index labels.** Frame indexes are positions. The row index labels that
  `dropna` and `drop_duplicates` keep are not modelled.
- **Frame identity.** Frames are values, so aliasing is not modelled. The
  source always works on a fresh copy: `dropna` returns one before any
  in-place change.
- **ColumnIdentifier.UpperValues** states only a length bound in its own
  contract. Its exact content is stated by `UpperValuesExact`.
- **Spec functions (no row).** `Normaliser.Cleaned`, `Normaliser.Processed`,
  `Normaliser.UtilsRoster`, `Normaliser.Renamed`, `Normaliser.ExpandCell`,
  `Normaliser.ExpandColumn`, `AnsExtraction.AnsFrame`,
  `AnsExtraction.AnsRoster`, `AnnexLinks.AnnexUrls`, `AnnexLinks.Matches`,
  `ColumnIdentifier.Classify`, `ColumnIdentifier.ColumnRoles`,
  `ColumnIdentifier.ColumnMapping`, `ColumnIdentifier.MappingUpTo`,
  `RelevanceFilter.RolTables`, `RelevanceFilter.IsRolTable`, `Text.Upper`,
  `Normaliser.WithColumns`, `Frames.ConcatRows`, `Frames.Realign`,
  `Frames.Rename` and `Frames.AddNullColumn` are definitions. Their own
  contracts state at most shapes; they are the specifications of the methods
  above, and the lemmas in the table state their properties.
