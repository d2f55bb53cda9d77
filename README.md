# Journal import generator: a verified model of its core

The program reads journal rows from a spreadsheet and writes a ledger-import XML document for
one company. Each document has a journal header (`Nalog_za_knjiženje`), one line
(`Stavka_naloga_za_knjizenje`) per accepted row, and one account descriptor (`Konto`) per account
used. It also keeps a debug log of every skipped row. This project models the parts of the program
that decide what is written:

- **Konto** (`konto.dfy`): `norm_konto`, the canonical form of an account number.
- **Amount** (`amount.dfy`): `parse_amount`. It applies the comma/dot rule, parses a plain decimal,
  rounds half-even to four places and formats the result as `f'{q:.4f}'`. The module also holds the
  nonzero test applied to each amount.
- **Columns** (`columns.dfy`): `normalize_header` and `find_columns`. Each required field is matched
  to a column by its exact normalised header, or else by the first synonym in list order.
- **Directory** (`directory.dfy`): the row loop of `load_konta_sql`, which builds the code-to-id
  map and the id-to-descriptor map. It also holds `_current_konta_map` and `_current_konta_meta`,
  which use the loaded snapshot when it is non-empty and the embedded tables otherwise.
- **Ledger** (`ledger.dfy`): the XML document as a datatype tree, the header, line and descriptor
  elements, and the `T00:00:00+02:00` date format.
- **Journal** (`journal.dfy`): the body of `generate` as values. It covers the per-row decision
  (empty account → account not in map → zero amounts → line), the run over all rows, the header
  date and the descriptors. `GenerateSpec` gives the outcome of one whole generation.
- **App** (`app.dfy`): the application object as a class. Its fields are the sheet, the form
  fields, the loaded maps and the debug log. Its two operations change them in place:
  - `LoadKonta` replaces both maps, or clears both;
  - `Generate` runs the imperative row loop. That loop appends each line element to the root,
    fills it, or removes it again, and appends to the debug log. `Generate` is proved to produce
    exactly `GenerateSpec`.
- Supporting modules: `text.dfy` (Python `str` helpers: `strip`, `lower`, `replace`, `rfind`),
  `numerals.dfy` (decimal numerals), `sorting.dfy` (`sorted` of a set of ids) and `wrappers.dfy`
  (`Option`).

Three behaviours of the code are easy to miss:

- `norm_konto` is not idempotent. A tab hidden behind a separator survives the first pass and is
  stripped by a second one (`KontoExamples.NotIdempotentWithTab`).
- An account id is added to the used ids before the amount check (line 495). So a row rejected
  for zero amounts still gets a descriptor, and the descriptor ids can be more than the ids of the
  written lines (`Journal.ZeroAmountUsesAccount`, `Journal.LineKidsUsed`).
- Only skipped rows are logged, all with status `SKIP`. Written lines add no record
  (`Journal.RunSound`, `Journal.Run`).

## Model

| member | source | states |
|---|---|---|
| Konto.NormalizedKonto | Redizajnknjizenje_xml_gui_SQL_v4c_hybrid_log_FIXED.py:47-56 | `None` gives ""; the result contains no space and none of `.` `-` `/` `\`; every character of the result comes from the input |
| Konto.NormKonto | Redizajnknjizenje_xml_gui_SQL_v4c_hybrid_log_FIXED.py:47-56 | the step-by-step normalisation (drop ".0", strip, remove spaces, then the separator loop) returns `NormalizedKonto(x)`, a code free of spaces and separators |
| Konto.RemoveSeparators | Redizajnknjizenje_xml_gui_SQL_v4c_hybrid_log_FIXED.py:54-55 | the loop over the four separators removes every occurrence of each, in list order |
| Konto.SecondPassStrips | Redizajnknjizenje_xml_gui_SQL_v4c_hybrid_log_FIXED.py:47-56 | normalising a normalised code again only strips it |
| Konto.IdempotentWithPlainSpaces | Redizajnknjizenje_xml_gui_SQL_v4c_hybrid_log_FIXED.py:47-56 | when the only whitespace in the input is `' '`, normalisation is idempotent |
| Konto.PlainCode | Redizajnknjizenje_xml_gui_SQL_v4c_hybrid_log_FIXED.py:51-55 | a code with no ".0" ending, no space and no whitespace at its edges only loses its separators |
| KontoExamples.NotIdempotentWithTab | Redizajnknjizenje_xml_gui_SQL_v4c_hybrid_log_FIXED.py:51-55 | "-\t1" normalises to "\t1", and normalising that again gives "1" |
| KontoExamples.SeparatorsIgnored | Redizajnknjizenje_xml_gui_SQL_v4c_hybrid_log_FIXED.py:54-55 | "100-1" and "100.1" both normalise to "1001" |
| Amount.Disambiguate | Redizajnknjizenje_xml_gui_SQL_v4c_hybrid_log_FIXED.py:84-91 | after the comma/dot rewrite no comma is left |
| Amount.DisambiguatePoints | Redizajnknjizenje_xml_gui_SQL_v4c_hybrid_log_FIXED.py:84-91 | when both separators occur, the later one becomes the decimal point and the other is deleted; a lone comma becomes the point after the dots are deleted; text without a comma is unchanged |
| Amount.DisambiguateCommaPoint | Redizajnknjizenje_xml_gui_SQL_v4c_hybrid_log_FIXED.py:84-91 | when the last separator is a comma at position p, the text before p loses its dots and has any other commas turned into points, then p becomes the point and the text after it is kept; with a single comma that is just: dots before p deleted, p becomes the point |
| Amount.DisambiguateDotPoint | Redizajnknjizenje_xml_gui_SQL_v4c_hybrid_log_FIXED.py:84-91 | when both occur and the last separator is a dot at position q, the commas before q are deleted, q stays the point and the text after it is kept |
| Amount.DisambiguateKeepsDigits | Redizajnknjizenje_xml_gui_SQL_v4c_hybrid_log_FIXED.py:84-91 | the rewrite only deletes or converts commas and dots: every other character is kept, in order |
| Amount.FirstIndex | Redizajnknjizenje_xml_gui_SQL_v4c_hybrid_log_FIXED.py:93 | the position of the first occurrence of a character, -1 exactly when it is absent, used to split the integer and fraction digits |
| Amount.ParseDecimal | Redizajnknjizenje_xml_gui_SQL_v4c_hybrid_log_FIXED.py:93-95 | any decimal `Decimal(s)` yields is well-formed, with digit-only parts and at least one digit |
| Amount.ParseDecimalExact | Redizajnknjizenje_xml_gui_SQL_v4c_hybrid_log_FIXED.py:93-95 | after stripping and an optional '+' or '-', the text parses exactly when it is digits, or digits, one point and digits, with at least one digit; the result reads back as the text: the sign, then the integer digits, then (when a point was written) the point and the fraction digits |
| Amount.RoundHalfEven | Redizajnknjizenje_xml_gui_SQL_v4c_hybrid_log_FIXED.py:93 | the rounded quotient is the truncated quotient or one more, and an exact quotient is kept |
| Amount.RoundHalfEvenNearest | Redizajnknjizenje_xml_gui_SQL_v4c_hybrid_log_FIXED.py:93 | the rounded quotient is within half a unit of the value, and on a tie it is even |
| Amount.Quantize4 | Redizajnknjizenje_xml_gui_SQL_v4c_hybrid_log_FIXED.py:93 | zero stays zero; with more than four fraction digits the four-place value is the truncated one or one more unit |
| Amount.Quantize4Nearest | Redizajnknjizenje_xml_gui_SQL_v4c_hybrid_log_FIXED.py:93 | the four-place value is the one nearest to the decimal (exact with at most four fraction digits) |
| Amount.FormatFixed4 | Redizajnknjizenje_xml_gui_SQL_v4c_hybrid_log_FIXED.py:93 | `f'{q:.4f}'` always has the shape: optional '-', at least one digit, a point, exactly four digits |
| Amount.ParseAmount | Redizajnknjizenje_xml_gui_SQL_v4c_hybrid_log_FIXED.py:80-95 | blank or absent input gives `None`; every result has exactly four fraction digits |
| Amount.NonzeroIffRoundedNonzero | Redizajnknjizenje_xml_gui_SQL_v4c_hybrid_log_FIXED.py:508-510 | the nonzero test on a formatted amount holds exactly when the rounded value is not zero |
| Amount.ParseFormatRoundTrip | Redizajnknjizenje_xml_gui_SQL_v4c_hybrid_log_FIXED.py:80-95 | parsing a formatted amount gives back that amount |
| Amount.ParseAmountIdempotent | Redizajnknjizenje_xml_gui_SQL_v4c_hybrid_log_FIXED.py:80-95 | parsing a parsed amount again changes nothing |
| Amount.QuantizeFormatted | Redizajnknjizenje_xml_gui_SQL_v4c_hybrid_log_FIXED.py:93 | the integer and fraction numerals of a formatted amount denote that amount exactly |
| AmountExamples.EuropeanGrouping | Redizajnknjizenje_xml_gui_SQL_v4c_hybrid_log_FIXED.py:84-93 | "1.234,56" gives "1234.5600" |
| AmountExamples.EnglishGrouping | Redizajnknjizenje_xml_gui_SQL_v4c_hybrid_log_FIXED.py:84-93 | "1,234.56" gives "1234.5600" |
| AmountExamples.NotAmounts | Redizajnknjizenje_xml_gui_SQL_v4c_hybrid_log_FIXED.py:80-95 | "", "   ", an absent cell and "abc" give `None` |
| AmountExamples.PlainInteger | Redizajnknjizenje_xml_gui_SQL_v4c_hybrid_log_FIXED.py:93 | "5" parses as 5 |
| AmountExamples.PlusSign | Redizajnknjizenje_xml_gui_SQL_v4c_hybrid_log_FIXED.py:93 | "+5" parses as 5 |
| AmountExamples.TrailingPoint | Redizajnknjizenje_xml_gui_SQL_v4c_hybrid_log_FIXED.py:93 | "5." parses as 5 with an empty fraction |
| AmountExamples.MissingIntegerPart | Redizajnknjizenje_xml_gui_SQL_v4c_hybrid_log_FIXED.py:93 | "-.5" parses as minus 0.5 with no integer digits |
| AmountExamples.LonePoint | Redizajnknjizenje_xml_gui_SQL_v4c_hybrid_log_FIXED.py:93-95 | "." does not parse |
| AmountExamples.SecondPoint | Redizajnknjizenje_xml_gui_SQL_v4c_hybrid_log_FIXED.py:93-95 | "1.2.3" does not parse |
| Columns.NormalizeHeader | Redizajnknjizenje_xml_gui_SQL_v4c_hybrid_log_FIXED.py:45 | the normalised header is the stripped header with letters lowered: it has the stripped header's length, no whitespace at either edge, no ASCII capital, each character equal to the stripped one up to case, and each ASCII capital replaced by its lower-case letter |
| Columns.NormalizeHeaderIdempotent | Redizajnknjizenje_xml_gui_SQL_v4c_hybrid_log_FIXED.py:45 | normalising a normalised header changes nothing |
| Columns.HeaderIndexLastWins | Redizajnknjizenje_xml_gui_SQL_v4c_hybrid_log_FIXED.py:59 | a normalised header is a key exactly when some column normalises to it, and it maps to the last such column |
| Columns.HeaderIndexValues | Redizajnknjizenje_xml_gui_SQL_v4c_hybrid_log_FIXED.py:59 | every value of the header index is a column of the sheet |
| Columns.Lookup | Redizajnknjizenje_xml_gui_SQL_v4c_hybrid_log_FIXED.py:72 | `alt_map.get(col, [])`: the synonyms of the field, or none for a field without an entry |
| Columns.FirstHitWins | Redizajnknjizenje_xml_gui_SQL_v4c_hybrid_log_FIXED.py:72-75 | the synonym search finds nothing exactly when no synonym is a header; otherwise it finds the first one in list order |
| Columns.Resolve | Redizajnknjizenje_xml_gui_SQL_v4c_hybrid_log_FIXED.py:68-77 | an exact header match is used as is; any resolution is a column of the index |
| Columns.FindSynonym | Redizajnknjizenje_xml_gui_SQL_v4c_hybrid_log_FIXED.py:71-75 | the loop that stops at the first synonym whose normal form is a header returns the first hit |
| Columns.ResolveAll | Redizajnknjizenje_xml_gui_SQL_v4c_hybrid_log_FIXED.py:60-78 | the loop over the required fields leaves `mapping` and `missing` as the fold over the fields' resolutions |
| Columns.FindColumns | Redizajnknjizenje_xml_gui_SQL_v4c_hybrid_log_FIXED.py:58-78 | `find_columns` returns the mapping and the missing list of the header index |
| Columns.Partition | Redizajnknjizenje_xml_gui_SQL_v4c_hybrid_log_FIXED.py:67-77 | every required field is mapped or missing, never both; it is mapped exactly when it resolves, and to its resolution |
| Columns.NotListed | Redizajnknjizenje_xml_gui_SQL_v4c_hybrid_log_FIXED.py:67-77 | a field that is not required is neither mapped nor missing |
| Columns.MissingPositions | Redizajnknjizenje_xml_gui_SQL_v4c_hybrid_log_FIXED.py:77 | the missing fields come from strictly increasing positions of the required list, so they keep its order |
| Columns.MappedAreColumns | Redizajnknjizenje_xml_gui_SQL_v4c_hybrid_log_FIXED.py:58-78 | every mapped value is a real column of the sheet |
| Columns.ExactFirst | Redizajnknjizenje_xml_gui_SQL_v4c_hybrid_log_FIXED.py:68-69 | an exact normalised-header match beats every synonym |
| Columns.FirstSynonymMapped | Redizajnknjizenje_xml_gui_SQL_v4c_hybrid_log_FIXED.py:71-76 | without an exact match, the first synonym in list order that is a header, naming a non-empty column, is mapped |
| Columns.UnmatchedMissing | Redizajnknjizenje_xml_gui_SQL_v4c_hybrid_log_FIXED.py:71-77 | a field with no exact match and no synonym naming a non-empty column is missing |
| Directory.RowCode | Redizajnknjizenje_xml_gui_SQL_v4c_hybrid_log_FIXED.py:389 | the code of a table row (NULL read as "", stripped, normalised) is a code |
| Directory.DirectoryMap | Redizajnknjizenje_xml_gui_SQL_v4c_hybrid_log_FIXED.py:386-392 | every key of the built map is a non-empty normalised code |
| Directory.DirectoryMeta | Redizajnknjizenje_xml_gui_SQL_v4c_hybrid_log_FIXED.py:386-392 | every descriptor holds a non-empty normalised code |
| Directory.BuildKontaMaps | Redizajnknjizenje_xml_gui_SQL_v4c_hybrid_log_FIXED.py:386-392 | the loop over the fetched rows builds exactly the directory map and the descriptor map |
| Directory.IdsHaveMeta | Redizajnknjizenje_xml_gui_SQL_v4c_hybrid_log_FIXED.py:386-392 | every id stored in the map has a descriptor, and that descriptor's code is a normalised code |
| Directory.LastRowWins | Redizajnknjizenje_xml_gui_SQL_v4c_hybrid_log_FIXED.py:388-391 | a non-empty code is a key exactly when some row has it, and it maps to the id of the last such row |
| Directory.EmptyTogether | Redizajnknjizenje_xml_gui_SQL_v4c_hybrid_log_FIXED.py:390-392 | the two maps are empty together, exactly when no row has a code |
| Directory.CurrentMap | Redizajnknjizenje_xml_gui_SQL_v4c_hybrid_log_FIXED.py:439-440 | a non-empty loaded map is used whole; otherwise the embedded map |
| Directory.CurrentMeta | Redizajnknjizenje_xml_gui_SQL_v4c_hybrid_log_FIXED.py:442-443 | a non-empty loaded descriptor map is used whole; otherwise the embedded one |
| Directory.SameSource | Redizajnknjizenje_xml_gui_SQL_v4c_hybrid_log_FIXED.py:439-443 | after a load, the maps in use both come from the table or both from the embedded tables, never a mixture |
| Directory.SelectedIdsHaveMeta | Redizajnknjizenje_xml_gui_SQL_v4c_hybrid_log_FIXED.py:439-443 | every id the selected map yields has a good descriptor in the selected descriptor map |
| Ledger.IntTextReadsBack | Redizajnknjizenje_xml_gui_SQL_v4c_hybrid_log_FIXED.py:497-500 | `str(n)` of a non-negative id or number is a numeral that reads back as `n` |
| Ledger.IsoMidnight | Redizajnknjizenje_xml_gui_SQL_v4c_hybrid_log_FIXED.py:100 | a written date starts with the year's digits and a dash and ends with `T00:00:00+02:00` |
| Ledger.IsoMidnightRoundTrip | Redizajnknjizenje_xml_gui_SQL_v4c_hybrid_log_FIXED.py:97-100 | a valid date is written in 25 characters ending in `T00:00:00+02:00` and reads back unchanged |
| Ledger.IsoMidnightInjective | Redizajnknjizenje_xml_gui_SQL_v4c_hybrid_log_FIXED.py:97-100 | two valid dates are written alike only when they are the same date |
| Ledger.HeaderElement | Redizajnknjizenje_xml_gui_SQL_v4c_hybrid_log_FIXED.py:466-477 | `Nalog_za_knjiženje` has no text and ten leaf children |
| Ledger.HeaderElementFields | Redizajnknjizenje_xml_gui_SQL_v4c_hybrid_log_FIXED.py:466-477 | reading the header back gives the company code, journal id 900000, status 2, the type id and name, `<900000>` twice, the date and the note twice; any other tag gives nothing |
| Ledger.LineChildren | Redizajnknjizenje_xml_gui_SQL_v4c_hybrid_log_FIXED.py:496-520 | a line's children start with its head and end with the three fixed children, with at most five optional ones between |
| Ledger.ItemElement | Redizajnknjizenje_xml_gui_SQL_v4c_hybrid_log_FIXED.py:496-520 | `Stavka_naloga_za_knjizenje` has no text, between 7 and 12 children, the four head children first and the three fixed children last |
| Ledger.LineChildrenFields | Redizajnknjizenje_xml_gui_SQL_v4c_hybrid_log_FIXED.py:501-520 | a tag of a line's children holds the head's value, else the item's field (optional children only when present or non-empty, then the fixed tail) |
| Ledger.ItemElementFields | Redizajnknjizenje_xml_gui_SQL_v4c_hybrid_log_FIXED.py:496-520 | reading a line element back gives id `900000 + rb`, journal id 900000, the account id, `rb`, and each optional child exactly when its field is present |
| Ledger.BlockElement | Redizajnknjizenje_xml_gui_SQL_v4c_hybrid_log_FIXED.py:524-529 | `Konto` has no text and five leaf children |
| Ledger.BlockElementFields | Redizajnknjizenje_xml_gui_SQL_v4c_hybrid_log_FIXED.py:524-529 | reading a descriptor back gives its id, code and name, 1 for posting allowed and 0 for foreign currency; any other tag gives nothing |
| Journal.CellText | Redizajnknjizenje_xml_gui_SQL_v4c_hybrid_log_FIXED.py:485 | `str` of a cell: its text, or "nan" for a blank one |
| Journal.TextCell | Redizajnknjizenje_xml_gui_SQL_v4c_hybrid_log_FIXED.py:503 | a blank cell gives ""; otherwise exactly the stripped text, which has no whitespace at either edge |
| Journal.DateCell | Redizajnknjizenje_xml_gui_SQL_v4c_hybrid_log_FIXED.py:501 | a blank cell gives no date; a cell the parser reads gives that date in the midnight format, and any date written comes from the parser |
| Journal.Kept | Redizajnknjizenje_xml_gui_SQL_v4c_hybrid_log_FIXED.py:508-511 | an amount is written exactly when it parsed and is not zero, and then unchanged |
| Journal.NothingMissingComplete | Redizajnknjizenje_xml_gui_SQL_v4c_hybrid_log_FIXED.py:456-459 | with no missing column, every required field is mapped |
| Journal.RowKonto | Redizajnknjizenje_xml_gui_SQL_v4c_hybrid_log_FIXED.py:485-486 | a row's account code is a normalised code |
| Journal.Decide | Redizajnknjizenje_xml_gui_SQL_v4c_hybrid_log_FIXED.py:484-521 | the checks run in the code's order: empty code, then not in map, then zero amounts (which still uses the id), else a line with the row's kept amounts; each skip is a SKIP record with the row number and code |
| Journal.DecideEmits | Redizajnknjizenje_xml_gui_SQL_v4c_hybrid_log_FIXED.py:494-521 | a known account with a kept amount becomes a line with the row's date, document, amounts and description |
| Journal.Verdicts | Redizajnknjizenje_xml_gui_SQL_v4c_hybrid_log_FIXED.py:483 | one decision per row, in sheet order |
| Journal.StepGrows | Redizajnknjizenje_xml_gui_SQL_v4c_hybrid_log_FIXED.py:482-521 | each step adds exactly one line or one record and keeps the earlier ones, keeps `rb` one past the last line, never forgets an id, uses the row's id, and counts 'konto not in map' only with its record |
| Journal.StepEmpty | Redizajnknjizenje_xml_gui_SQL_v4c_hybrid_log_FIXED.py:487-489 | an empty code appends one 'konto empty' record and changes nothing else |
| Journal.StepNotInMap | Redizajnknjizenje_xml_gui_SQL_v4c_hybrid_log_FIXED.py:490-493 | an unknown code counts one more and appends one 'konto not in map' record |
| Journal.StepZero | Redizajnknjizenje_xml_gui_SQL_v4c_hybrid_log_FIXED.py:494-515 | a known code with both amounts dropped adds the id, appends one 'zero amounts' record, and writes no line |
| Journal.StepLine | Redizajnknjizenje_xml_gui_SQL_v4c_hybrid_log_FIXED.py:494-521 | a known code with a kept amount adds the id, appends line `rb` and advances `rb` |
| Journal.RunDescribed | Redizajnknjizenje_xml_gui_SQL_v4c_hybrid_log_FIXED.py:478-521 | after the loop: the log is the skipped rows' records in order; the lines are the emitting rows numbered from 1; `rb` is one past the last line; the ids used are those of every row whose account is known; the counter is the number of 'konto not in map' records |
| Journal.Run | Redizajnknjizenje_xml_gui_SQL_v4c_hybrid_log_FIXED.py:482-521 | each row becomes exactly one line or one record, `rb` is the number of lines plus one, and the not-in-map counter never exceeds the records |
| Journal.LinesNumbered | Redizajnknjizenje_xml_gui_SQL_v4c_hybrid_log_FIXED.py:481-521 | the lines carry sequence numbers 1, 2, … without gaps |
| Journal.DecideSound | Redizajnknjizenje_xml_gui_SQL_v4c_hybrid_log_FIXED.py:487-515 | every decision is sound: a record says SKIP, a line has a present and nonzero amount |
| Journal.RunSound | Redizajnknjizenje_xml_gui_SQL_v4c_hybrid_log_FIXED.py:487-521 | every line written has at least one amount, each nonzero, and every record of the log says SKIP |
| Journal.LineKidsUsed | Redizajnknjizenje_xml_gui_SQL_v4c_hybrid_log_FIXED.py:495-521 | the account id of every line is among the ids used |
| Journal.ZeroAmountUsesAccount | Redizajnknjizenje_xml_gui_SQL_v4c_hybrid_log_FIXED.py:495 | a zero-amount row adds its id to the ids used without writing a line |
| Journal.BlockOf | Redizajnknjizenje_xml_gui_SQL_v4c_hybrid_log_FIXED.py:523-527 | a descriptor carries the id and the stored code and name, or "" and "" for an id without one |
| Journal.Blocks | Redizajnknjizenje_xml_gui_SQL_v4c_hybrid_log_FIXED.py:522-529 | one descriptor per id used, in sorted order |
| Journal.BlocksCover | Redizajnknjizenje_xml_gui_SQL_v4c_hybrid_log_FIXED.py:522-529 | the descriptors cover exactly the ids used, once each, in strictly ascending order |
| Journal.FirstDateNone | Redizajnknjizenje_xml_gui_SQL_v4c_hybrid_log_FIXED.py:462 | no date is found exactly when no date cell parses |
| Journal.FirstDateIndex | Redizajnknjizenje_xml_gui_SQL_v4c_hybrid_log_FIXED.py:462-463 | a date found is that of the first row whose date cell parses |
| Journal.FirstDate | Redizajnknjizenje_xml_gui_SQL_v4c_hybrid_log_FIXED.py:462 | a date found ends with `T00:00:00+02:00` |
| Journal.HeaderDate | Redizajnknjizenje_xml_gui_SQL_v4c_hybrid_log_FIXED.py:462-463 | the journal date always ends with `T00:00:00+02:00` |
| Journal.HeaderDateFirst | Redizajnknjizenje_xml_gui_SQL_v4c_hybrid_log_FIXED.py:462-463 | the journal date is the date of the first row, over all rows, whose date cell parses |
| Journal.HeaderDateToday | Redizajnknjizenje_xml_gui_SQL_v4c_hybrid_log_FIXED.py:463 | without any parsed date the journal is dated today at midnight |
| Journal.TipIdOf | Redizajnknjizenje_xml_gui_SQL_v4c_hybrid_log_FIXED.py:461 | a known journal type gives its id from the table; any other gives 24 |
| Journal.NoteOf | Redizajnknjizenje_xml_gui_SQL_v4c_hybrid_log_FIXED.py:475 | the note is never empty: the stripped note when that is not empty, else the fixed text |
| Journal.HeaderOf | Redizajnknjizenje_xml_gui_SQL_v4c_hybrid_log_FIXED.py:460-477 | the header holds the stripped company code and type name, the type id, the date and the note |
| Journal.GenerateSpec | Redizajnknjizenje_xml_gui_SQL_v4c_hybrid_log_FIXED.py:445-540 | no sheet, then an empty company code, then missing columns (reported as the missing list) end the generation early, each exactly in its case and with an empty log; a generation accounts for every row as a line or a record and counts at most one not-in-map per record |
| Journal.GenerateReachesRows | Redizajnknjizenje_xml_gui_SQL_v4c_hybrid_log_FIXED.py:456-540 | once the three early checks pass, the generation builds the header, lines and descriptors of the run, reports the line count and not-in-map count, and keeps the file exactly when `rb != 1` |
| Journal.VerdictsSound | Redizajnknjizenje_xml_gui_SQL_v4c_hybrid_log_FIXED.py:483-521 | every decision of the row loop is sound |
| Journal.RunTotals | Redizajnknjizenje_xml_gui_SQL_v4c_hybrid_log_FIXED.py:481-540 | `rb != 1` exactly when a line was written; lines plus records equal the rows; the counter equals the 'konto not in map' records; every record says SKIP |
| Journal.GenerateFacts | Redizajnknjizenje_xml_gui_SQL_v4c_hybrid_log_FIXED.py:445-540 | an early return leaves the log empty; a generation keeps its file exactly when a line was written, accounts for every row as a line or a record, counts the 'konto not in map' records, and logs only SKIP records |
| App.App.constructor | Redizajnknjizenje_xml_gui_SQL_v4c_hybrid_log_FIXED.py:117-134 | no sheet and no loaded maps, an empty log, the type "Tekući promet", the default note and an empty company code |
| App.App.LoadKonta | Redizajnknjizenje_xml_gui_SQL_v4c_hybrid_log_FIXED.py:376-402 | a failed query clears both maps; a successful one sets both from the fetched rows, after which the maps in use come from the same source; nothing else changes |
| App.App.Generate | Redizajnknjizenje_xml_gui_SQL_v4c_hybrid_log_FIXED.py:445-540 | the outcome and the new debug log are those of `GenerateSpec` on the state before the call; nothing else changes |
| App.App.ReadRows | Redizajnknjizenje_xml_gui_SQL_v4c_hybrid_log_FIXED.py:478-521 | the row loop ends with `rb`, the ids used, the not-in-map counter and the log of the run, and the root extended by the line elements of the run |
| App.ReadRow | Redizajnknjizenje_xml_gui_SQL_v4c_hybrid_log_FIXED.py:484-521 | one pass of the loop body is one step of the run on the row's decision, and the root holds the lines so far |
| App.SkipRow | Redizajnknjizenje_xml_gui_SQL_v4c_hybrid_log_FIXED.py:487-493 | an empty or unknown code appends its record (and counts an unknown one) as the run's step does |
| App.KnownRow | Redizajnknjizenje_xml_gui_SQL_v4c_hybrid_log_FIXED.py:494-521 | a known code is handled as the run's step does, and the root holds the lines so far |
| App.ReadKnownRow | Redizajnknjizenje_xml_gui_SQL_v4c_hybrid_log_FIXED.py:494-521 | the id is used; with a kept amount the filled line element is appended and `rb` advances; without one the element is removed again, the root is as before and one 'zero amounts' record is produced |
| App.LineStart | Redizajnknjizenje_xml_gui_SQL_v4c_hybrid_log_FIXED.py:497-511 | the line so far holds the four head children, then the date, document and each kept amount when present; `added` is true exactly when some amount is kept |
| App.AppendBlocks | Redizajnknjizenje_xml_gui_SQL_v4c_hybrid_log_FIXED.py:522-529 | the descriptor loop appends exactly the descriptor elements of the sorted ids used |
| Sorting.SortedIds | Redizajnknjizenje_xml_gui_SQL_v4c_hybrid_log_FIXED.py:522 | `sorted(used_kids)` holds each id once, in strictly ascending order |

## Left out

- The Tkinter window: widgets, styles, preview, message boxes, the status line and `_log`. These
  are presentation only. The early returns of `generate` become the outcomes `NoSheet`,
  `NoCompany` and `MissingColumns`.
- The database: opening the connection and running the query. `LoadKonta` takes the fetched rows,
  or `None` when the connection or the query raised. Company loading and the connection test are
  not part of this model.
- App.App.LoadKonta: ids are taken to be non-NULL integers. In the code, `int(r[0])` on line 389 raises for a NULL or non-numeric id, and the handler then clears both maps. `KontoRow.id` is an `int`, so the model has no such row.
- Reading the workbook and its `dropna`: the sheet is the `df` field. Its cells are text or blank,
  as a sheet read with `dtype=str` gives them. Headers are strings. A blank konto cell reads as
  "nan", so it is logged as 'konto not in map', as the code does.
- Date parsing: the parser is the parameter `parseDate`, and only the fixed output format is
  modelled. Today's date, used when no row has a date, is the parameter `now`.
- Amount syntax: the exponents, underscores, `NaN`/`Infinity` and non-ASCII digits that `Decimal`
  also accepts are not modelled; such text gives `None` here. The `float(...) != 0.0` test is
  modelled as "some digit of the four-place text is not zero", which is the same test for the
  sizes the syntax allows.
- Text helpers: `strip` treats the ASCII and Unicode whitespace characters listed in `text.dfy` as
  whitespace. `lower` covers ASCII, Latin-1, Latin Extended-A and basic Cyrillic only.
- Text.Lower: 'İ' (U+0130) is left unchanged. Python lowers it to two characters, 'i' and a combining dot (U+0069 U+0307), and the one-character-in, one-character-out model cannot say that.
- Files: writing the XML, writing the debug CSV and removing the file when `rb == 1`. These become
  the returned document, the log and the `written` flag. The output path derivation is not modelled.
- Exceptions raised inside `generate` (the outer `try`) are not modelled. The model's operations
  are total.
- App.ReadKnownRow: the line element is modelled as a value in the root sequence. It is appended
  empty, replaced by its filled value, or removed again; the aliasing of the element object in the
  element tree is not modelled.
- `TIP_OPCIJE` (the list of type names for the drop-down) is presentation only.
