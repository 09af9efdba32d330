/**
 The `quotes` table, kept in memory: its rows in ascending id order and the
 AUTOINCREMENT counter (the largest id ever issued). The operations mirror
 `init_db`, `get_all_quotes`, `add_quote`, `update_quote`, `delete_quote` and
 `search_quotes`.
 */
module Store {
  import opened Wrappers
  import opened Text

  /** One row of `quotes(id, text, author, created_at)`. */
  datatype Row = Row(id: int, text: string, author: string, createdAt: string)

  /** What the listing queries select: `id, text, author`. */
  datatype Quote = Quote(id: int, text: string, author: string)

  function Summary(r: Row): Quote {
    Quote(r.id, r.text, r.author)
  }

  /** `SAMPLE_QUOTES`: the five (text, author) pairs seeded into an empty table. */
  const SampleQuotes: seq<(string, string)> := [
    ("O único lugar onde o sucesso vem antes do trabalho é no dicionário.", "Vidal Sassoon"),
    ("Acredite que você pode — assim você já está no meio do caminho.", "Theodore Roosevelt"),
    ("Pequenos progressos diários resultam em grandes conquistas.", "Desconhecido"),
    ("Você é mais forte do que pensa e será mais feliz do que imagina.", "Desconhecido"),
    ("A jornada de mil milhas começa com um único passo.", "Lao-Tsé")
  ]

  /** Five samples, each with a non-empty text and a non-empty author. */
  lemma SampleQuotesShape()
    ensures |SampleQuotes| == 5
    ensures forall k :: 0 <= k < |SampleQuotes| ==> SampleQuotes[k].0 != "" && SampleQuotes[k].1 != ""
  {
  }

  predicate AscendingIds(rows: seq<Row>) {
    forall i, j :: 0 <= i < j < |rows| ==> rows[i].id < rows[j].id
  }

  predicate AscendingQuoteIds(quotes: seq<Quote>) {
    forall i, j :: 0 <= i < j < |quotes| ==> quotes[i].id < quotes[j].id
  }

  predicate HasId(rows: seq<Row>, id: int) {
    exists k | 0 <= k < |rows| :: rows[k].id == id
  }

  /** `SELECT id, text, author FROM quotes ORDER BY id`, for rows kept in id order. */
  function Listing(rows: seq<Row>): (r: seq<Quote>)
    ensures |r| == |rows|
    ensures forall k :: 0 <= k < |rows| ==> r[k] == Summary(rows[k])
    ensures AscendingIds(rows) ==> AscendingQuoteIds(r)
  {
    seq(|rows|, k requires 0 <= k < |rows| => Summary(rows[k]))
  }

  /** The rows an INSERT of each pair in turn appends after the counter value `lastId`. */
  function NewRows(lastId: int, pairs: seq<(string, string)>, createdAt: string): (r: seq<Row>)
    ensures |r| == |pairs|
    ensures AscendingIds(r)
    ensures forall k :: 0 <= k < |r| ==> lastId < r[k].id <= lastId + |pairs|
  {
    seq(|pairs|, k requires 0 <= k < |pairs| => Row(lastId + 1 + k, pairs[k].0, pairs[k].1, createdAt))
  }

  /** The row with id `qid`, if there is one (`SELECT ... WHERE id = ?`). */
  function Lookup(rows: seq<Row>, qid: int): (r: Option<Row>)
    ensures r.Some? <==> HasId(rows, qid)
    ensures r.Some? ==> r.value in rows && r.value.id == qid
  {
    if rows == [] then None
    else if rows[0].id == qid then Some(rows[0])
    else
      var r := Lookup(rows[1..], qid);
      assert HasId(rows, qid) <==> HasId(rows[1..], qid) by {
        if HasId(rows, qid) {
          var k :| 0 <= k < |rows| && rows[k].id == qid;
          assert rows[1..][k - 1].id == qid;
        }
        if HasId(rows[1..], qid) {
          var k :| 0 <= k < |rows| - 1 && rows[1..][k].id == qid;
          assert rows[k + 1].id == qid;
        }
      }
      r
  }

  /** `UPDATE quotes SET text = ?, author = ? WHERE id = ?`. */
  function Updated(rows: seq<Row>, qid: int, text: string, author: string): (r: seq<Row>)
    ensures |r| == |rows|
    ensures forall k :: 0 <= k < |rows| ==>
      r[k].id == rows[k].id && r[k].createdAt == rows[k].createdAt &&
      if rows[k].id == qid then r[k].text == text && r[k].author == author else r[k] == rows[k]
  {
    if rows == [] then []
    else
      var head := if rows[0].id == qid then rows[0].(text := text, author := author) else rows[0];
      [head] + Updated(rows[1..], qid, text, author)
  }

  /** Updating an id that is not in the table changes nothing. */
  lemma UpdateAbsent(rows: seq<Row>, qid: int, text: string, author: string)
    requires !HasId(rows, qid)
    ensures Updated(rows, qid, text, author) == rows
  {
    var r := Updated(rows, qid, text, author);
    forall k | 0 <= k < |rows| ensures r[k] == rows[k] {
      assert rows[k].id != qid;
    }
  }

  /** An update keeps the ids, hence their order. */
  lemma UpdateKeepsOrder(rows: seq<Row>, qid: int, text: string, author: string)
    requires AscendingIds(rows)
    ensures AscendingIds(Updated(rows, qid, text, author))
  {
  }

  /** `DELETE FROM quotes WHERE id = ?`. */
  function Removed(rows: seq<Row>, qid: int): (r: seq<Row>)
    ensures |r| <= |rows|
    ensures forall x :: x in r ==> x in rows && x.id != qid
    ensures forall k :: 0 <= k < |rows| && rows[k].id != qid ==> rows[k] in r
    ensures AscendingIds(rows) ==> AscendingIds(r)
  {
    if rows == [] then []
    else
      var rest := Removed(rows[1..], qid);
      if rows[0].id == qid then rest
      else
        RowsAfterHead(rows, rest);
        [rows[0]] + rest
  }

  /** Rows drawn from the tail of an ascending table stay ascending behind its head. */
  lemma RowsAfterHead(rows: seq<Row>, rest: seq<Row>)
    requires rows != []
    requires forall x :: x in rest ==> x in rows[1..]
    ensures AscendingIds(rows) && AscendingIds(rest) ==> AscendingIds([rows[0]] + rest)
  {
    if AscendingIds(rows) && AscendingIds(rest) {
      var s := [rows[0]] + rest;
      forall i, j | 0 <= i < j < |s| ensures s[i].id < s[j].id {
        assert s[j] == rest[j - 1] && s[j] in rest;
        if i == 0 {
          var m :| 0 <= m < |rows| - 1 && rows[1..][m] == s[j];
          assert rows[m + 1] == s[j];
        } else {
          assert s[i] == rest[i - 1];
        }
      }
    }
  }

  /** Deleting an id that is not in the table changes nothing. */
  lemma {:induction false} RemoveAbsent(rows: seq<Row>, qid: int)
    requires !HasId(rows, qid)
    ensures Removed(rows, qid) == rows
  {
    if rows != [] {
      assert rows[0].id != qid;
      assert !HasId(rows[1..], qid) by {
        forall k | 0 <= k < |rows| - 1 ensures rows[1..][k].id != qid {
          assert rows[1..][k] == rows[k + 1];
        }
      }
      RemoveAbsent(rows[1..], qid);
      RemoveKeepsHead(rows, qid);
      assert rows == [rows[0]] + rows[1..];
    }
  }

  lemma AscendingTail(rows: seq<Row>)
    requires AscendingIds(rows) && rows != []
    ensures AscendingIds(rows[1..])
    ensures forall m :: 0 <= m < |rows| - 1 ==> rows[0].id < rows[1..][m].id
  {
  }

  lemma RemoveKeepsHead(rows: seq<Row>, qid: int)
    requires rows != [] && rows[0].id != qid
    ensures Removed(rows, qid) == [rows[0]] + Removed(rows[1..], qid)
  {
  }

  lemma SkipOneInTail<T>(s: seq<T>, k: nat)
    requires 0 < k < |s|
    ensures s[..k] + s[k + 1..] == [s[0]] + (s[1..][..k - 1] + s[1..][k..])
  {
    assert s[..k] == [s[0]] + s[1..][..k - 1];
    assert s[k + 1..] == s[1..][k..];
  }

  /** In a table with distinct ids, deleting removes exactly the one row with that id. */
  lemma {:induction false} RemoveExactlyOne(rows: seq<Row>, k: nat)
    requires AscendingIds(rows)
    requires k < |rows|
    ensures Removed(rows, rows[k].id) == rows[..k] + rows[k + 1..]
  {
    var qid := rows[k].id;
    var tail := rows[1..];
    AscendingTail(rows);
    if k == 0 {
      assert !HasId(tail, qid);
      RemoveAbsent(tail, qid);
      assert rows[..0] + rows[1..] == tail;
    } else {
      assert tail[k - 1] == rows[k];
      RemoveExactlyOne(tail, k - 1);
      RemoveKeepsHead(rows, qid);
      SkipOneInTail(rows, k);
    }
  }

  /** One listed quote answers the search when `LIKE '%term%'` accepts its text or its author. */
  predicate Hit(term: string, matches: (string, string) -> bool, q: Quote) {
    matches(term, q.text) || matches(term, q.author)
  }

  /** Literal containment always satisfies `LIKE '%term%'`: the one property of the
      store's LIKE operator this model relies on. */
  ghost predicate LikeSound(matches: (string, string) -> bool) {
    forall term: string, s: string :: IsSubstring(term, s) ==> matches(term, s)
  }

  /** The quotes of a listing that answer the search, in listing order. */
  function Filter(quotes: seq<Quote>, term: string, matches: (string, string) -> bool): (r: seq<Quote>)
    ensures |r| <= |quotes|
    ensures forall q :: q in r ==> q in quotes && Hit(term, matches, q)
    ensures forall q :: q in quotes && Hit(term, matches, q) ==> q in r
    ensures AscendingQuoteIds(quotes) ==> AscendingQuoteIds(r)
  {
    if quotes == [] then []
    else
      var rest := Filter(quotes[1..], term, matches);
      if Hit(term, matches, quotes[0]) then
        QuotesAfterHead(quotes, rest);
        [quotes[0]] + rest
      else rest
  }

  /** Quotes drawn from the tail of an ascending listing stay ascending behind its head. */
  lemma QuotesAfterHead(quotes: seq<Quote>, rest: seq<Quote>)
    requires quotes != []
    requires forall q :: q in rest ==> q in quotes[1..]
    ensures AscendingQuoteIds(quotes) && AscendingQuoteIds(rest) ==> AscendingQuoteIds([quotes[0]] + rest)
  {
    if AscendingQuoteIds(quotes) && AscendingQuoteIds(rest) {
      var s := [quotes[0]] + rest;
      forall i, j | 0 <= i < j < |s| ensures s[i].id < s[j].id {
        assert s[j] == rest[j - 1] && s[j] in rest;
        if i == 0 {
          var m :| 0 <= m < |quotes| - 1 && quotes[1..][m] == s[j];
          assert quotes[m + 1] == s[j];
        } else {
          assert s[i] == rest[i - 1];
        }
      }
    }
  }

  /** `search_quotes(term)`: the listed quotes whose text or author matches. */
  function Search(rows: seq<Row>, term: string, matches: (string, string) -> bool): (r: seq<Quote>)
    ensures forall q :: q in r ==> q in Listing(rows) && Hit(term, matches, q)
    ensures forall k :: 0 <= k < |rows| && Hit(term, matches, Summary(rows[k])) ==> Summary(rows[k]) in r
  {
    Filter(Listing(rows), term, matches)
  }

  /** Every quote whose text or author literally contains `term` is found, nothing
      else than a matching listed quote is returned, and the result is in id order. */
  lemma SearchComplete(rows: seq<Row>, term: string, matches: (string, string) -> bool)
    requires LikeSound(matches)
    requires AscendingIds(rows)
    ensures forall k :: 0 <= k < |rows| && (IsSubstring(term, rows[k].text) || IsSubstring(term, rows[k].author)) ==>
      Summary(rows[k]) in Search(rows, term, matches)
    ensures forall q :: q in Search(rows, term, matches) ==> q in Listing(rows) && Hit(term, matches, q)
    ensures AscendingQuoteIds(Search(rows, term, matches))
  {
    var l := Listing(rows);
    forall k | 0 <= k < |rows| && (IsSubstring(term, rows[k].text) || IsSubstring(term, rows[k].author))
      ensures Summary(rows[k]) in Search(rows, term, matches)
    {
      assert l[k] == Summary(rows[k]);
      assert Hit(term, matches, l[k]);
    }
  }

  /** The table: rows in ascending id order and the largest id ever issued. */
  class QuoteTable {
    var rows: seq<Row>
    var lastId: int
    /** Every id ever handed out by an INSERT. */
    ghost var issued: set<int>

    ghost predicate Valid()
      reads this
    {
      && lastId >= 0
      && AscendingIds(rows)
      && (forall k :: 0 <= k < |rows| ==> 1 <= rows[k].id && rows[k].id in issued)
      && (forall x :: x in issued ==> 1 <= x <= lastId)
    }

    /** `CREATE TABLE quotes`: a table that has never held a row. */
    constructor ()
      ensures Valid()
      ensures rows == [] && lastId == 0 && issued == {}
    {
      rows := [];
      lastId := 0;
      issued := {};
    }

    /** The seeding step of `init_db`: the sample quotes go in only when the table is empty. */
    method InitDb(createdAt: string)
      requires Valid()
      modifies this
      ensures Valid()
      ensures old(rows) == [] ==>
        rows == NewRows(old(lastId), SampleQuotes, createdAt) && lastId == old(lastId) + |SampleQuotes|
      ensures old(rows) != [] ==> rows == old(rows) && lastId == old(lastId)
      ensures forall x :: x in old(issued) ==> x in issued
    {
      if |rows| == 0 {
        rows := NewRows(lastId, SampleQuotes, createdAt);
        issued := issued + set k | 0 <= k < |rows| :: rows[k].id;
        lastId := lastId + |SampleQuotes|;
      }
    }

    /** `get_all_quotes`. */
    function AllQuotes(): (r: seq<Quote>)
      reads this
      requires Valid()
      ensures |r| == |rows|
      ensures AscendingQuoteIds(r)
    {
      Listing(rows)
    }

    /** `add_quote`: stores the stripped text and author under a fresh id and returns it. */
    method AddQuote(text: string, author: string, createdAt: string) returns (id: int)
      requires Valid()
      modifies this
      ensures Valid()
      ensures id == old(lastId) + 1 && lastId == id
      ensures id !in old(issued) && forall x :: x in old(issued) ==> x < id
      ensures issued == old(issued) + {id}
      ensures rows == old(rows) + [Row(id, Strip(text), Strip(author), createdAt)]
    {
      id := lastId + 1;
      rows := rows + [Row(id, Strip(text), Strip(author), createdAt)];
      lastId := id;
      issued := issued + {id};
    }

    /** `update_quote`: new stripped text and author for the row with that id, if any. */
    method UpdateQuote(qid: int, text: string, author: string)
      requires Valid()
      modifies this
      ensures Valid()
      ensures rows == Updated(old(rows), qid, Strip(text), Strip(author))
      ensures lastId == old(lastId) && issued == old(issued)
    {
      rows := Updated(rows, qid, Strip(text), Strip(author));
    }

    /** `delete_quote`: the row with that id, if any, is gone. */
    method DeleteQuote(qid: int)
      requires Valid()
      modifies this
      ensures Valid()
      ensures rows == Removed(old(rows), qid)
      ensures lastId == old(lastId) && issued == old(issued)
    {
      rows := Removed(rows, qid);
    }

    /** `search_quotes`. */
    function SearchQuotes(term: string, matches: (string, string) -> bool): (r: seq<Quote>)
      reads this
      requires Valid()
      ensures AscendingQuoteIds(r)
      ensures forall q :: q in r ==> q in AllQuotes() && Hit(term, matches, q)
    {
      Search(rows, term, matches)
    }
  }
}
