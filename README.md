# Motivational quotes: a verified model

`motivational_app.py` is a small Tkinter + SQLite desktop app that keeps a table of
motivational quotes. It shows a "quote of the day", lists and searches the quotes,
lets the user add, edit and delete them, and exports the table to a CSV file and
imports it back. This project models the logic under the widgets, in Dafny, and
proves properties of that model:

- `Text` (`text.dfy`): Python's `str.strip` over the characters `str.isspace` accepts,
  literal substring containment, Python's `s[:stop]` slice and the list helper
  `truncate`.
- `Csv` (`csv.dfy`): `parse_csv_line` as a function of its state (`ParseFrom`) and as
  the original `while` loop (`ParseCsvLine`), proved equal. Also the line `export_csv`
  writes for each row, and the round trip from that line back through the parser.
- `Store` (`store.dfy`): the `quotes` table as a class `QuoteTable`. Its fields are the
  rows, kept in ascending id order, and the AUTOINCREMENT counter `lastId`. A ghost set
  `issued` records every id ever handed out. `init_db` seeding and `get_all_quotes`,
  `add_quote`, `update_quote`, `delete_quote` and `search_quotes` are its methods and
  functions, each specified by a pure function on the rows.
- `Transfer` (`transfer.dfy`): the whole exported text, the records the import loop
  takes from a sequence of lines, and the lines Python's text-mode file iteration reads
  back from the exported file.
- `App` (`app.dfy`): the `QuotesApp` window as a class over a `QuoteTable`. Its fields
  are the cached list (`quotes_cache`) and the quote shown on top. It has the callbacks
  `show_qod`, `show_random`, `reload_list`, `do_search`, `get_selected_id`, `on_add`,
  `on_edit`, `on_delete`, and the loops of `export_csv` and `import_csv`.

Environment inputs are parameters:

- a dialog's answer: `None` when cancelled;
- the list box selection;
- the confirmation answer;
- `DATE('now')` as `createdAt`: one value per insert, one value for a whole import or
  seeding;
- `date.today()` as `today`;
- Python's `hash` as a function `hash: string -> int`;
- SQLite's `LIKE` as a function `matches(term, s)`.

The only property of `matches` the model relies on is `Store.LikeSound`: literal
containment implies a match.

Behaviour of the code a reader might not expect, and which the model keeps:

- `update_quote` on an id that is no longer in the table changes nothing and reports
  nothing.
- The empty-text check lives only in `on_add` (motivational_app.py:204-206). `add_quote`
  itself, `on_edit` and `import_csv` store an empty text. The model therefore has no
  "text is never empty" invariant.
- `search_quotes` uses SQLite `LIKE`, which is ASCII case-insensitive and treats `%` and
  `_` in the term as wildcards.
- `init_db` seeds whenever the table has no rows (`COUNT(*) == 0`); its `create` flag is
  never used. After every row was deleted, the next start seeds again, and the seed
  ids continue after the largest id ever issued.
- The export/import round trip holds only for rows with no line break in any field; see
  `Transfer.ReadExportedText`.

## Model

| member | source | states |
|---|---|---|
| Text.Strip | motivational_app.py:60 | the result is no longer than the input; it is empty exactly when the input is all whitespace; a non-empty result starts and ends with a non-whitespace character |
| Text.StripKeepsInfix | motivational_app.py:60 | `strip` keeps a contiguous block of the input and removes only whitespace before and after it |
| Text.StripIdempotent | motivational_app.py:338-339 | stripping an already stripped value (the dialog strips, then `add_quote`/`update_quote` strip again) changes nothing |
| Text.PyPrefix | motivational_app.py:284 | Python's `s[:stop]` is a prefix of `s` of length `min(stop, len(s))`, or `max(0, len(s)+stop)` for a negative stop |
| Text.Truncate | motivational_app.py:283-284 | a string that fits is returned unchanged; a longer one becomes a prefix plus `...`; for `n >= 3` that is exactly the first `n-3` characters plus `...`, of length `n`; for `n < 3` the Python negative-slice length |
| Text.ListTruncation | motivational_app.py:175 | the list view's `truncate(text, 60)` is at most 60 characters long and a longer text keeps its first 57 characters |
| Csv.ParseFieldCount | motivational_app.py:287-313 | `Parse` (the function `ParseFrom` runs from the start of the line) never yields more fields than the line has characters, and at most one field for a line without a comma |
| Csv.FieldCount | motivational_app.py:292-313 | from any state of the parser, each later field is closed by an unquoted comma or holds a character of its own; with no comma left at most the current field is added |
| Csv.ParseCsvLine | motivational_app.py:287-313 | the `while` loop over the characters returns exactly `Parse(line)`; it terminates because `len(line) - i` decreases on every path |
| Csv.ParseSteps | motivational_app.py:294-310 | inside quotes a `""` pair yields one `"`; any other quote only toggles the in-quotes flag; a comma inside quotes is data, outside it ends the field; a line break inside quotes is data, outside it stops the parse |
| Csv.EmptyLines | motivational_app.py:307-313 | an empty line, or one starting with `\r` or `\n`, parses to no fields |
| Csv.PartsPrefix | motivational_app.py:302-304 | fields already completed are never changed by the rest of the parse |
| Csv.PlainLine | motivational_app.py:287-313 | a line without quotes parses to its comma-separated pieces up to the first line break, with an empty last piece dropped |
| Csv.Escape | motivational_app.py:253-254 | `replace('"', '""')` never shortens a value |
| Csv.EscapeLength | motivational_app.py:253-254 | escaping adds exactly one character per `"` in the value |
| Csv.EscapeNoQuote | motivational_app.py:253-254 | doubling quotes leaves a value without quotes unchanged |
| Csv.ExportLineRoundTrip | motivational_app.py:253-255 | parsing the exported line of any text and author gives back that text and that author as the first two fields; with a date free of quotes it gives exactly text, author and date (the date dropped when empty) |
| Store.Listing | motivational_app.py:52-55 | one listed quote per row, in table order, each the row's id, text and author; ascending row ids give ascending listed ids |
| Store.NewRows | motivational_app.py:47 | inserting `n` pairs after counter value `lastId` appends `n` rows whose ids ascend and lie in `(lastId, lastId + n]` |
| Store.Lookup | motivational_app.py:217-219 | a row is found exactly when some row has the id; the row found is in the table and has that id |
| Store.Updated | motivational_app.py:65-68 | every row keeps its id and created_at; the row with the id gets the new text and author; every other row is unchanged |
| Store.UpdateAbsent | motivational_app.py:65-68 | updating an id that is not in the table changes nothing, with no error |
| Store.UpdateKeepsOrder | motivational_app.py:65-68 | an update keeps the rows in ascending id order |
| Store.Removed | motivational_app.py:71-74 | the result has only rows of the table without that id, keeps every row with another id, and stays in id order |
| Store.RemoveAbsent | motivational_app.py:71-74 | deleting an id that is not in the table changes nothing |
| Store.RemoveExactlyOne | motivational_app.py:71-74 | in a table with ascending ids, deleting the id of row `k` removes exactly row `k` and keeps the rest in order |
| Store.Filter | motivational_app.py:80 | the search keeps exactly the listed quotes whose text or author matches, in listing order, so ascending ids stay ascending |
| Store.SearchComplete | motivational_app.py:77-81 | every row whose text or author literally contains the term is found; nothing but matching listed quotes is returned; the result is in ascending id order |
| Store.QuoteTable.constructor | motivational_app.py:31-40 | a new table has no rows and has never issued an id |
| Store.QuoteTable.InitDb | motivational_app.py:43-49 | an empty table receives the five sample quotes with the next five ids; a non-empty table is unchanged |
| Store.QuoteTable.AllQuotes | motivational_app.py:52-55 | `get_all_quotes` lists every row, in strictly ascending id order |
| Store.QuoteTable.AddQuote | motivational_app.py:58-62 | the returned id is the counter plus one, greater than every id ever issued; the stripped text and author are appended under it and existing rows are untouched |
| Store.QuoteTable.UpdateQuote | motivational_app.py:65-68 | the rows become `Updated(rows, id, strip(text), strip(author))`; the counter and the issued ids are unchanged |
| Store.QuoteTable.DeleteQuote | motivational_app.py:71-74 | the rows become `Removed(rows, id)`; the counter and the issued ids are unchanged |
| Store.QuoteTable.SearchQuotes | motivational_app.py:77-81 | the result is in ascending id order and holds only listed quotes that match |
| Store.SampleQuotesShape | motivational_app.py:17-23 | there are five sample quotes, each with a non-empty text and a non-empty author |
| Store.Search | motivational_app.py:77-81 | a listed quote is in the result exactly when its text or author matches the term |
| Transfer.RowLines | motivational_app.py:252-255 | one exported line per row, in id order |
| Transfer.RowLineShape | motivational_app.py:255 | a row with no line break in its fields is written as exactly one line ending in `\n` |
| Transfer.ExportTextSnoc | motivational_app.py:250-255 | writing row `i` appends exactly that row's line to the text written for the rows before it |
| Transfer.ImportRecords | motivational_app.py:265-276 | the header line yields no record and every later line at most one |
| Transfer.BodyRecords | motivational_app.py:268-276 | the lines after the header yield at most one record each |
| Transfer.RecordsOfParsed | motivational_app.py:268-276 | parsing each line first and then taking its record (none for no fields, author `''` for one field) gives the import's records |
| Transfer.ImportStep | motivational_app.py:270-276 | a line with no fields adds no record; any other line adds one record whose text is the first field and whose author is the second field, or `''` when missing |
| Transfer.RowLinesRoundTrip | motivational_app.py:252-255 | the exported row lines read back as exactly the rows' (text, author) pairs, in order |
| Transfer.ImportOfExport | motivational_app.py:265-276 | importing the header and the exported lines yields exactly the exported (text, author) pairs, in the exported order |
| Transfer.ReadExportedText | motivational_app.py:266-268 | when no field holds a line break, reading the exported file line by line gives the header and one line per row |
| Transfer.ReadLinesShape | motivational_app.py:266-268 | text-mode line reading returns no line exactly for an empty file; every line is non-empty with no line break before its last character, and every line but the last ends in `\n` |
| Transfer.FileRoundTrip | motivational_app.py:242-276 | importing the file the export wrote yields exactly the exported (text, author) pairs, in order, when no field holds a line break |
| App.AuthorLine | motivational_app.py:159 | the author line is `— ` followed by the author, or by `Desconhecido` when the author is empty |
| App.DailyIndex | motivational_app.py:156 | `hash(today) % len(quotes)` is a valid index into a non-empty list, and is the hash itself when that is already in range |
| App.QuoteOfTheDay | motivational_app.py:148-159 | an empty table shows the placeholder message with no author line; otherwise one of the listed quotes is shown |
| App.SelectedId | motivational_app.py:190-197 | an id is returned exactly when something is selected and the index is below the cache length; the id is that of a cached quote |
| App.SelectionNamesStoredRow | motivational_app.py:190-197 | in a list freshly read from the table, a selected id names a row that is stored |
| App.SearchView | motivational_app.py:178-188 | a term that is blank once stripped shows the full list; any other term shows the search for the stripped term |
| App.SearchViewComplete | motivational_app.py:178-188 | the search view is in id order, holds only listed quotes, and holds every quote whose text or author contains the stripped term |
| App.QuotesApp.constructor | motivational_app.py:86-146 | startup seeds an empty table with the five samples and advances the counter by five; a non-empty table keeps its rows and its counter; the list is filled from the table and the quote of the day is shown |
| App.QuotesApp.ShowQod | motivational_app.py:148-159 | the shown quote is the quote of the day of the current listing |
| App.QuotesApp.ShowRandom | motivational_app.py:161-168 | with no rows nothing changes and the empty notice is signalled; otherwise some listed quote is shown |
| App.QuotesApp.ReloadList | motivational_app.py:171-176 | the cache becomes the full listing |
| App.QuotesApp.DoSearch | motivational_app.py:178-188 | the cache becomes the search view of the entry |
| App.QuotesApp.OnAdd | motivational_app.py:200-209 | a quote is added exactly when the dialog was confirmed with a non-blank text; it gets the next id, which becomes the counter, and the stripped fields; otherwise table, counter and list are unchanged |
| App.QuotesApp.OnEdit | motivational_app.py:211-228 | the outcome is fixed by the inputs: no valid selection, a selected row that has disappeared (table unchanged, list reloaded), a cancelled dialog, or, exactly when the selection is valid, the row exists and the dialog was confirmed, an edit that replaces only that row's text and author, even with an empty text; without a selection or with a cancelled dialog the list is unchanged |
| App.QuotesApp.OnDelete | motivational_app.py:230-239 | with no valid selection or no confirmation nothing changes; otherwise the selected id is removed and the list reloaded |
| App.QuotesApp.ExportCsv | motivational_app.py:242-256 | the loop writes exactly the header and one line per row in id order, and counts the rows |
| App.QuotesApp.ImportLine | motivational_app.py:270-276 | one pass of the import loop parses the line and appends one stripped row under the next id exactly when there are fields |
| App.QuotesApp.ImportLines | motivational_app.py:265-276 | the loop skips the header, adds one row per line that has fields, numbered on from the counter, and counts exactly the rows added |
| App.QuotesApp.ImportCsv | motivational_app.py:260-278 | the import loop followed by the list reload |

## Left out

- Tkinter widgets, layout, dialogs and message boxes: only the decisions of the callbacks
  are modelled. The dialog's answer, the list box selection and the confirmation are
  parameters. Notices are not modelled.
- The listbox display string (`id — truncated text — author`) is not modelled.
  `truncate` itself is.
- sqlite3 connections and `commit` are not modelled; the table is kept in memory. The
  row order of the database file is also left out: the model keeps rows in id order,
  which is what every `ORDER BY id` query returns.
- File dialogs, `open`, and the `try/except` around export and import are not modelled
  (I/O). Export is modelled as the text written. Import is modelled both as a loop over
  given lines and as the splitting of a text into lines (`Transfer.ReadLines`).
- A NULL author is not modelled: every author is a string. `add_quote` always stores a
  stripped string, and the seeds all have authors (`Store.SampleQuotesShape`).
- `Store.LikeSound`, `Store.Filter`, `Store.SearchComplete`: SQLite `LIKE` is
  approximated. It is an arbitrary `matches` predicate that accepts every literal
  substring. Case-insensitive matching and the wildcards are not modelled, so only
  completeness for literal containment is proved.
- `App.DailyIndex`: Python's salted `hash` is not modelled. It is a function parameter,
  so it does not show that the choice is stable within one process.
- `App.QuotesApp.ShowRandom`: `random.choice` is modelled as an arbitrary choice of a
  listed quote. Uniformity is not modelled.
- `Text.IsSpace` follows the whitespace table of current Python 3 versions. Changes to
  that table in other Unicode versions are not modelled.
- `DATE('now')` is one parameter per insert, one per seeding and one per import. A date
  change in the middle of an import is not modelled.
- `Store.QuoteTable.AddQuote`: SQLite's failure once the largest id is reached is not
  modelled. Ids are unbounded integers.
- `Transfer.ReadExportedText`: the file round trip is stated only for rows with no line
  break in any field. A text with a line break, which the multi-line dialog allows, is
  read back as two separate lines, so the round trip does not hold for it.
- `Transfer.FileRoundTrip`: stated for the same single-line rows only, for the same
  reason.
- No lemma gives the read-back of a row whose text holds a line break.
- `Csv.ExportLineRoundTrip`: the third field is stated exactly only for a date with no
  `"`. `export_csv` writes `created_at` without escaping; `DATE('now')` never contains
  a quote.
