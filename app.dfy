/**
 The decision logic of the `QuotesApp` window: the quote-of-the-day area, the
 cached list the list box shows, and what each button does to the table. The
 widgets themselves are not modelled; a dialog's answer and the list box's
 selection are parameters.
 */
module App {
  import opened Wrappers
  import opened Text
  import opened Csv
  import opened Store
  import opened Transfer

  /** What the top area shows: the quote text and the author line under it. */
  datatype Display = Display(text: string, author: string)

  /** Shown by `show_qod` when the table is empty. */
  const EmptyTableMessage: string := "Ainda não há frases no banco de dados."

  const UnknownAuthor: string := "Desconhecido"

  /** The author line, a dash and the author; an empty author reads as 'Desconhecido'. */
  function AuthorLine(author: string): (r: string)
    ensures |r| >= 3 && r[..2] == "— "
    ensures r[2..] == if author != "" then author else UnknownAuthor
  {
    "— " + (if author != "" then author else UnknownAuthor)
  }

  function Shown(q: Quote): Display {
    Display(q.text, AuthorLine(q.author))
  }

  /** `hash(today) % len(quotes)`: Python's `%` with a positive divisor is never
      negative, like Dafny's. */
  function DailyIndex(dayHash: int, count: nat): (idx: nat)
    requires count > 0
    ensures idx < count
    ensures 0 <= dayHash < count ==> idx == dayHash
  {
    dayHash % count
  }

  /** `show_qod`: the placeholder for an empty list, otherwise the listed quote that
      the hash of today's date selects. */
  function QuoteOfTheDay(quotes: seq<Quote>, hash: string -> int, today: string): (d: Display)
    ensures quotes == [] ==> d == Display(EmptyTableMessage, "")
    ensures quotes != [] ==> exists k :: 0 <= k < |quotes| && d == Shown(quotes[k])
  {
    if quotes == [] then Display(EmptyTableMessage, "")
    else Shown(quotes[DailyIndex(hash(today), |quotes|)])
  }

  /** `get_selected_id`: the id of the selected entry of the cached list, or
      nothing when no entry is selected or the index lies past the cache. */
  function SelectedId(cache: seq<Quote>, selection: seq<nat>): (r: Option<int>)
    ensures r.Some? <==> selection != [] && selection[0] < |cache|
    ensures r.Some? ==> exists q :: q in cache && q.id == r.value
  {
    if selection == [] then None
    else if selection[0] >= |cache| then None
    else Some(cache[selection[0]].id)
  }

  /** A selection in a list freshly read from the table names a stored row. */
  lemma SelectionNamesStoredRow(rows: seq<Row>, selection: seq<nat>)
    requires SelectedId(Listing(rows), selection).Some?
    ensures Lookup(rows, SelectedId(Listing(rows), selection).value).Some?
  {
    var k := selection[0];
    assert Listing(rows)[k] == Summary(rows[k]);
  }

  /** `do_search`: a term that is blank once stripped shows the whole list, any
      other term the result of the search for the stripped term. */
  function SearchView(rows: seq<Row>, entry: string, matches: (string, string) -> bool): (r: seq<Quote>)
    ensures AllSpace(entry) ==> r == Listing(rows)
    ensures !AllSpace(entry) ==> r == Search(rows, Strip(entry), matches)
  {
    var term := Strip(entry);
    if term == "" then Listing(rows) else Search(rows, term, matches)
  }

  /** The search view lists, in id order, every quote whose text or author contains
      the stripped term, and only listed quotes. */
  lemma SearchViewComplete(rows: seq<Row>, entry: string, matches: (string, string) -> bool)
    requires LikeSound(matches)
    requires AscendingIds(rows)
    ensures AscendingQuoteIds(SearchView(rows, entry, matches))
    ensures forall q :: q in SearchView(rows, entry, matches) ==> q in Listing(rows)
    ensures forall k :: 0 <= k < |rows| && IsSubstring(Strip(entry), rows[k].text) ==>
      Summary(rows[k]) in SearchView(rows, entry, matches)
    ensures forall k :: 0 <= k < |rows| && IsSubstring(Strip(entry), rows[k].author) ==>
      Summary(rows[k]) in SearchView(rows, entry, matches)
  {
    if !AllSpace(entry) {
      SearchComplete(rows, Strip(entry), matches);
    }
  }

  datatype AddOutcome = AddCancelled | EmptyText | Added(id: int)

  datatype EditOutcome = EditNoSelection | NotFound | EditCancelled | Edited(id: int)

  datatype DeleteOutcome = DeleteNoSelection | Declined | Deleted(id: int)

  lemma NewRowsAppend(lastId: int, p: seq<(string, string)>, q: seq<(string, string)>, createdAt: string)
    ensures NewRows(lastId, p, createdAt) + NewRows(lastId + |p|, q, createdAt) == NewRows(lastId, p + q, createdAt)
  {
    var a := NewRows(lastId, p, createdAt) + NewRows(lastId + |p|, q, createdAt);
    var b := NewRows(lastId, p + q, createdAt);
    forall k | 0 <= k < |b| ensures a[k] == b[k] {
      if k < |p| {
        assert (p + q)[k] == p[k];
      } else {
        assert (p + q)[k] == q[k - |p|];
      }
    }
  }

  lemma StrippedAppend(p: seq<(string, string)>, q: seq<(string, string)>)
    ensures Stripped(p) + Stripped(q) == Stripped(p + q)
  {
    var a, b := Stripped(p) + Stripped(q), Stripped(p + q);
    forall k | 0 <= k < |b| ensures a[k] == b[k] {
      if k < |p| {
        assert (p + q)[k] == p[k];
      } else {
        assert (p + q)[k] == q[k - |p|];
      }
    }
  }

  /** Importing the records `more` after `done` appends their rows after those of
      `done`, numbered on from where `done` stopped. */
  lemma ImportedRowsAppend(lastId: int, done: seq<(string, string)>, more: seq<(string, string)>, createdAt: string)
    ensures NewRows(lastId, Stripped(done), createdAt) + NewRows(lastId + |done|, Stripped(more), createdAt) ==
      NewRows(lastId, Stripped(done + more), createdAt)
  {
    StrippedAppend(done, more);
    NewRowsAppend(lastId, Stripped(done), Stripped(more), createdAt);
  }

  /** The import loop's step on the table's rows. */
  lemma ImportedRowsStep(rows0: seq<Row>, last0: int, done: seq<(string, string)>, more: seq<(string, string)>,
                         createdAt: string, before: seq<Row>, lastBefore: int, after: seq<Row>)
    requires before == rows0 + NewRows(last0, Stripped(done), createdAt)
    requires lastBefore == last0 + |done|
    requires after == before + NewRows(lastBefore, Stripped(more), createdAt)
    ensures after == rows0 + NewRows(last0, Stripped(done + more), createdAt)
  {
    ImportedRowsAppend(last0, done, more, createdAt);
  }

  /** The row a single imported record becomes. */
  lemma ImportedRowOne(lastId: int, text: string, author: string, createdAt: string)
    ensures NewRows(lastId, Stripped([(text, author)]), createdAt) == [Row(lastId + 1, Strip(text), Strip(author), createdAt)]
  {
    var st := Stripped([(text, author)]);
    assert st[0] == (Strip(text), Strip(author));
    assert NewRows(lastId, st, createdAt)[0] == Row(lastId + 1, st[0].0, st[0].1, createdAt);
  }

  /** The application's state: the table it works on, the list the list box
      shows (`quotes_cache`) and the quote shown on top. */
  class QuotesApp {
    const store: QuoteTable
    var cache: seq<Quote>
    var shown: Display

    ghost predicate Valid()
      reads this, store
    {
      store.Valid()
    }

    /** `__init__`: open and seed the table, fill the list, show the quote of the day. */
    constructor (db: QuoteTable, createdAt: string, hash: string -> int, today: string)
      requires db.Valid()
      modifies db
      ensures store == db && Valid()
      ensures old(db.rows) == [] ==>
        db.rows == NewRows(old(db.lastId), SampleQuotes, createdAt) && db.lastId == old(db.lastId) + |SampleQuotes|
      ensures old(db.rows) != [] ==> db.rows == old(db.rows) && db.lastId == old(db.lastId)
      ensures cache == Listing(db.rows)
      ensures shown == QuoteOfTheDay(cache, hash, today)
    {
      store := db;
      cache := [];
      shown := Display(EmptyTableMessage, "");
      new;
      db.InitDb(createdAt);
      ReloadList();
      ShowQod(hash, today);
    }

    /** `show_qod`. */
    method ShowQod(hash: string -> int, today: string)
      requires Valid()
      modifies this`shown
      ensures shown == QuoteOfTheDay(Listing(store.rows), hash, today)
    {
      shown := QuoteOfTheDay(store.AllQuotes(), hash, today);
    }

    /** `show_random`: any listed quote, or a notice (and no change) when there is none. */
    method ShowRandom() returns (empty: bool)
      requires Valid()
      modifies this`shown
      ensures empty <==> store.rows == []
      ensures empty ==> shown == old(shown)
      ensures !empty ==> exists q :: q in Listing(store.rows) && shown == Shown(q)
    {
      var quotes := store.AllQuotes();
      if quotes == [] {
        empty := true;
        return;
      }
      empty := false;
      var k :| 0 <= k < |quotes|;
      shown := Shown(quotes[k]);
    }

    /** `reload_list`. */
    method ReloadList()
      requires Valid()
      modifies this`cache
      ensures cache == Listing(store.rows)
    {
      cache := store.AllQuotes();
    }

    /** `do_search`. */
    method DoSearch(entry: string, matches: (string, string) -> bool)
      requires Valid()
      modifies this`cache
      ensures cache == SearchView(store.rows, entry, matches)
    {
      var term := Strip(entry);
      if term == "" {
        ReloadList();
        return;
      }
      cache := store.SearchQuotes(term, matches);
    }

    /** `on_add`: the dialog (None when cancelled) hands over its stripped fields;
        a blank text is refused, anything else is added and the list reloaded. */
    method OnAdd(dialog: Option<(string, string)>, createdAt: string) returns (outcome: AddOutcome)
      requires Valid()
      modifies this`cache, store
      ensures Valid()
      ensures outcome.Added? <==> dialog.Some? && !AllSpace(dialog.value.0)
      ensures outcome.Added? ==>
        && outcome.id == old(store.lastId) + 1 && store.lastId == outcome.id
        && store.rows == old(store.rows) + [Row(outcome.id, Strip(dialog.value.0), Strip(dialog.value.1), createdAt)]
        && cache == Listing(store.rows)
      ensures !outcome.Added? ==> store.rows == old(store.rows) && store.lastId == old(store.lastId) && cache == old(cache)
      ensures dialog.None? ==> outcome == AddCancelled
    {
      if dialog.None? {
        return AddCancelled;
      }
      var text, author := Strip(dialog.value.0), Strip(dialog.value.1);
      if Strip(text) == "" {
        return EmptyText;
      }
      StripIdempotent(dialog.value.0);
      StripIdempotent(dialog.value.1);
      var id := store.AddQuote(text, author, createdAt);
      ReloadList();
      outcome := Added(id);
    }

    /** `on_edit`: the selected row, if it still exists, gets the dialog's stripped
        fields; an empty text is not refused here. */
    method OnEdit(selection: seq<nat>, dialog: Option<(string, string)>) returns (outcome: EditOutcome)
      requires Valid()
      modifies this`cache, store
      ensures Valid()
      ensures outcome == EditNoSelection <==> SelectedId(old(cache), selection).None?
      ensures outcome == NotFound <==>
        SelectedId(old(cache), selection).Some? && Lookup(old(store.rows), SelectedId(old(cache), selection).value).None?
      ensures outcome.Edited? <==>
        && SelectedId(old(cache), selection).Some? && Lookup(old(store.rows), SelectedId(old(cache), selection).value).Some?
        && dialog.Some?
      ensures outcome == NotFound ==> store.rows == old(store.rows) && cache == Listing(store.rows)
      ensures outcome == EditNoSelection || outcome == EditCancelled ==> cache == old(cache)
      ensures outcome.Edited? ==>
        && dialog.Some? && SelectedId(old(cache), selection) == Some(outcome.id)
        && Lookup(old(store.rows), outcome.id).Some?
        && store.rows == Updated(old(store.rows), outcome.id, Strip(dialog.value.0), Strip(dialog.value.1))
        && cache == Listing(store.rows)
      ensures !outcome.Edited? ==> store.rows == old(store.rows)
      ensures store.lastId == old(store.lastId)
    {
      var qid := SelectedId(cache, selection);
      if qid.None? {
        return EditNoSelection;
      }
      if Lookup(store.rows, qid.value).None? {
        ReloadList();
        return NotFound;
      }
      if dialog.None? {
        return EditCancelled;
      }
      var text, author := Strip(dialog.value.0), Strip(dialog.value.1);
      StripIdempotent(dialog.value.0);
      StripIdempotent(dialog.value.1);
      store.UpdateQuote(qid.value, text, author);
      ReloadList();
      outcome := Edited(qid.value);
    }

    /** `on_delete`: after confirmation the selected id is deleted (a no-op if the
        row is already gone) and the list reloaded. */
    method OnDelete(selection: seq<nat>, confirmed: bool) returns (outcome: DeleteOutcome)
      requires Valid()
      modifies this`cache, store
      ensures Valid()
      ensures outcome == DeleteNoSelection <==> SelectedId(old(cache), selection).None?
      ensures outcome == Declined <==> SelectedId(old(cache), selection).Some? && !confirmed
      ensures outcome.Deleted? ==>
        && SelectedId(old(cache), selection) == Some(outcome.id)
        && store.rows == Removed(old(store.rows), outcome.id)
        && cache == Listing(store.rows)
      ensures !outcome.Deleted? ==> store.rows == old(store.rows) && cache == old(cache)
      ensures store.lastId == old(store.lastId)
    {
      var qid := SelectedId(cache, selection);
      if qid.None? {
        return DeleteNoSelection;
      }
      if !confirmed {
        return Declined;
      }
      store.DeleteQuote(qid.value);
      ReloadList();
      outcome := Deleted(qid.value);
    }

    /** `export_csv`: the header, then one line per row in id order; `count` is the
        number of exported quotes. */
    method ExportCsv() returns (content: string, count: nat)
      requires Valid()
      ensures content == ExportText(store.rows)
      ensures count == |store.rows|
    {
      var rows := store.rows;
      content := Header;
      var i := 0;
      while i < |rows|
        invariant i <= |rows|
        invariant content == ExportText(rows[..i])
      {
        ExportTextSnoc(rows, i);
        content := content + RowLine(rows[i]);
        i := i + 1;
      }
      assert rows[..i] == rows;
      count := |rows|;
    }

    /** One pass of the loop of `import_csv`: the line's fields, and when there are
        any, one added quote, its text the first field and its author the second
        ('' when missing). */
    method ImportLine(line: string, createdAt: string) returns (parts: seq<string>)
      requires Valid()
      modifies store
      ensures Valid()
      ensures parts == Parse(line)
      ensures store.rows == old(store.rows) + NewRows(old(store.lastId), Stripped(RecordOf(parts)), createdAt)
      ensures store.lastId == old(store.lastId) + |RecordOf(parts)|
    {
      parts := ParseCsvLine(line);
      if parts != [] {
        var text := parts[0];
        var author := if |parts| > 1 then parts[1] else "";
        assert RecordOf(parts) == [(text, author)];
        var id := store.AddQuote(text, author, createdAt);
        ImportedRowOne(id - 1, text, author, createdAt);
      } else {
        assert NewRows(store.lastId, Stripped([]), createdAt) == [];
      }
    }

    /** The loop of `import_csv`: the first line is skipped and each later line that
        parses to fields adds one quote; `count` is the number added. */
    method ImportLines(lines: seq<string>, createdAt: string) returns (count: nat)
      requires Valid()
      modifies store
      ensures Valid()
      ensures count == |ImportRecords(lines)|
      ensures store.rows == old(store.rows) + NewRows(old(store.lastId), Stripped(ImportRecords(lines)), createdAt)
      ensures store.lastId == old(store.lastId) + count
    {
      count := 0;
      if lines == [] {
        assert NewRows(store.lastId, Stripped([]), createdAt) == [];
        return;
      }
      ghost var rows0, last0 := store.rows, store.lastId;
      ghost var parsed: seq<seq<string>> := [];
      ghost var done: seq<(string, string)> := [];
      assert NewRows(last0, Stripped(done), createdAt) == [];
      var i := 1;
      assert lines[1..1] == [];
      while i < |lines|
        invariant 1 <= i <= |lines|
        invariant store.Valid()
        invariant ParsedFrom(parsed, lines[1..i])
        invariant done == Records(parsed)
        invariant count == |done|
        invariant store.rows == rows0 + NewRows(last0, Stripped(done), createdAt)
        invariant store.lastId == last0 + count
      {
        ghost var before, lastBefore := store.rows, store.lastId;
        var parts := ImportLine(lines[i], createdAt);
        ParsedSnoc(parsed, lines, i, parts);
        ImportedRowsStep(rows0, last0, done, RecordOf(parts), createdAt, before, lastBefore, store.rows);
        parsed := parsed + [parts];
        done := done + RecordOf(parts);
        if parts != [] {
          count := count + 1;
        }
        i := i + 1;
      }
      assert lines[1..i] == lines[1..];
      RecordsOfParsed(parsed, lines[1..]);
    }

    /** `import_csv` over the lines of the file, followed by the list reload. */
    method ImportCsv(lines: seq<string>, createdAt: string) returns (count: nat)
      requires Valid()
      modifies this`cache, store
      ensures Valid()
      ensures count == |ImportRecords(lines)|
      ensures store.rows == old(store.rows) + NewRows(old(store.lastId), Stripped(ImportRecords(lines)), createdAt)
      ensures store.lastId == old(store.lastId) + count
      ensures cache == Listing(store.rows)
    {
      count := ImportLines(lines, createdAt);
      ReloadList();
    }
  }
}
