/**
 * The row-building loop of `convert_json_to_csv.py`: a combined register
 * (`{"year": ..., "pages": [{"page": ..., "register": [...]}, ...]}`) becomes
 * a header row and one five-field row per register entry that is a dict.
 * The CSV file is the sequence of rows written; an exception inside the
 * `try` leaves the rows written so far, which `failed` reports.
 */
module Csv {

  import opened Wrappers
  import opened JsonModel

  /** One CSV row: the values handed to `writer.writerow`. */
  type Row = seq<Json>

  /** Line 39: the header row. */
  const Header: Row := [JString("year"), JString("page"), JString("name"), JString("jobTitle"), JString("address")]

  /** Lines 48-54: the row of one register entry, with "" for a missing field. */
  function EntryRow(year: Json, pageNumber: Json, entry: seq<(string, Json)>): (r: Row)
    ensures |r| == 5 && r[0] == year && r[1] == pageNumber
    ensures !HasKey(entry, "name") ==> r[2] == JString("")
    ensures !HasKey(entry, "jobTitle") ==> r[3] == JString("")
    ensures !HasKey(entry, "address") ==> r[4] == JString("")
    ensures HasKey(entry, "name") ==> ("name", r[2]) in entry
    ensures HasKey(entry, "jobTitle") ==> ("jobTitle", r[3]) in entry
    ensures HasKey(entry, "address") ==> ("address", r[4]) in entry
  {
    [year, pageNumber,
     GetOr(entry, "name", JString("")),
     GetOr(entry, "jobTitle", JString("")),
     GetOr(entry, "address", JString(""))]
  }

  /** How many of the entries are dicts. */
  function DictCount(entries: seq<Json>): nat {
    if entries == [] then 0
    else DictCount(entries[..|entries| - 1]) + (if entries[|entries| - 1].JObject? then 1 else 0)
  }

  /** Lines 45-54: the rows of the dict entries of one page, in entry order; other entries are skipped. */
  function EntryRows(year: Json, pageNumber: Json, entries: seq<Json>): (r: seq<Row>)
    ensures |r| == DictCount(entries)
    ensures forall k :: 0 <= k < |r| ==> |r[k]| == 5 && r[k][0] == year && r[k][1] == pageNumber
  {
    if entries == [] then []
    else
      var last := entries[|entries| - 1];
      EntryRows(year, pageNumber, entries[..|entries| - 1])
        + (if last.JObject? then [EntryRow(year, pageNumber, last.fields)] else [])
  }

  /** Line 43: `page.get("page", "Unknown")`. */
  function PageNumber(page: seq<(string, Json)>): Json {
    GetOr(page, "page", JString("Unknown"))
  }

  /**
   * Lines 43-45 for one page: None where `page.get` or the loop over the
   * register raises (the page is not a dict, or its register cannot be iterated).
   */
  function PageRows(year: Json, page: Json): (r: Option<seq<Row>>)
    ensures !page.JObject? ==> r.None?
    ensures page.JObject? && !HasKey(page.fields, "register") ==> r == Some([])
    ensures r.Some? ==> forall k :: 0 <= k < |r.value| ==> |r.value[k]| == 5 && r.value[k][0] == year
  {
    if !page.JObject? then None
    else match Iterate(GetOr(page.fields, "register", JArray([])))
      case None => None
      case Some(entries) => Some(EntryRows(year, PageNumber(page.fields), entries))
  }

  /** The rows of the pages up to the first page that raises, and whether one did. */
  function RowsUntil(year: Json, pages: seq<Json>): (r: (seq<Row>, bool))
    ensures forall k :: 0 <= k < |r.0| ==> |r.0[k]| == 5 && r.0[k][0] == year
  {
    if pages == [] then ([], false)
    else
      var prev := RowsUntil(year, pages[..|pages| - 1]);
      if prev.1 then prev
      else match PageRows(year, pages[|pages| - 1])
        case None => (prev.0, true)
        case Some(rows) => (prev.0 + rows, false)
  }

  /** Once a page has raised, later pages add nothing. */
  lemma {:induction false} FailureStays(year: Json, pages: seq<Json>, n: nat)
    requires n <= |pages| && RowsUntil(year, pages[..n]).1
    ensures RowsUntil(year, pages) == RowsUntil(year, pages[..n])
    decreases |pages|
  {
    if n == |pages| {
      assert pages[..n] == pages;
    } else {
      var prefix := pages[..|pages| - 1];
      assert prefix[..n] == pages[..n];
      FailureStays(year, prefix, n);
    }
  }

  /** Line 44: `data.get("year", "Unknown")`. */
  function YearOf(data: seq<(string, Json)>): Json {
    GetOr(data, "year", JString("Unknown"))
  }

  /**
   * What the script writes: the header, then the rows of the pages. Data that
   * is not a dict, or whose pages cannot be iterated, stops it after the header.
   */
  function CsvRows(data: Json): (r: (seq<Row>, bool))
    ensures r.0 != [] && r.0[0] == Header
    ensures data.JObject? ==> forall k :: 1 <= k < |r.0| ==> |r.0[k]| == 5 && r.0[k][0] == YearOf(data.fields)
    ensures data.JObject? && !HasKey(data.fields, "pages") ==> r == ([Header], false)
    ensures !data.JObject? ==> r == ([Header], true)
  {
    if !data.JObject? then ([Header], true)
    else match Iterate(GetOr(data.fields, "pages", JArray([])))
      case None => ([Header], true)
      case Some(pages) =>
        var rest := RowsUntil(YearOf(data.fields), pages);
        assert forall k :: 1 <= k < 1 + |rest.0| ==> ([Header] + rest.0)[k] == rest.0[k - 1];
        assert pages == [] ==> [Header] + rest.0 == [Header];
        ([Header] + rest.0, rest.1)
  }

  lemma CsvRowsOfPages(data: Json, pages: seq<Json>)
    requires data.JObject? && Iterate(GetOr(data.fields, "pages", JArray([]))) == Some(pages)
    ensures CsvRows(data) == ([Header] + RowsUntil(YearOf(data.fields), pages).0, RowsUntil(YearOf(data.fields), pages).1)
  {
  }

  /** The inner loop (lines 45-54): the rows of one page's entries, written one at a time. */
  method WritePage(year: Json, pageNumber: Json, entries: seq<Json>) returns (out: seq<Row>)
    ensures out == EntryRows(year, pageNumber, entries)
  {
    out := [];
    for j := 0 to |entries|
      invariant out == EntryRows(year, pageNumber, entries[..j])
    {
      EntryRowsStep(year, pageNumber, entries, j);
      var entry := entries[j];
      if entry.JObject? {
        out := out + [EntryRow(year, pageNumber, entry.fields)];
      }
    }
    assert entries[..|entries|] == entries;
  }

  lemma EntryRowsStep(year: Json, pageNumber: Json, entries: seq<Json>, j: nat)
    requires j < |entries|
    ensures EntryRows(year, pageNumber, entries[..j + 1]) == EntryRows(year, pageNumber, entries[..j])
      + (if entries[j].JObject? then [EntryRow(year, pageNumber, entries[j].fields)] else [])
  {
    assert entries[..j + 1][..j] == entries[..j];
  }

  /** The outer loop (lines 42-54): the rows of page after page, until a page raises. */
  method WritePages(year: Json, pages: seq<Json>) returns (out: seq<Row>, failed: bool)
    ensures (out, failed) == RowsUntil(year, pages)
  {
    out := [];
    failed := false;
    assert pages[..0] == [];
    var i := 0;
    while i < |pages|
      invariant 0 <= i <= |pages| && !failed
      invariant RowsUntil(year, pages[..i]) == (out, false)
    {
      var ok;
      UntilStep(year, pages, i, out);
      out, ok := WriteOnePage(out, year, pages[i]);
      if !ok {
        FailureStays(year, pages, i + 1);
        failed := true;
        break;
      }
      i := i + 1;
    }
    if !failed {
      assert pages[..i] == pages;
    }
  }

  /** Page i of the loop, when the pages before it did not raise. */
  lemma UntilStep(year: Json, pages: seq<Json>, i: nat, done: seq<Row>)
    requires i < |pages| && RowsUntil(year, pages[..i]) == (done, false)
    ensures RowsUntil(year, pages[..i + 1]) ==
      match PageRows(year, pages[i])
      case None => (done, true)
      case Some(rows) => (done + rows, false)
  {
    assert pages[..i + 1][..i] == pages[..i];
  }

  /** One page of the outer loop: `page.get` and the loop over its register, or the exception they raise. */
  method WriteOnePage(rows: seq<Row>, year: Json, page: Json) returns (out: seq<Row>, ok: bool)
    ensures ok == PageRows(year, page).Some?
    ensures ok ==> out == rows + PageRows(year, page).value
    ensures !ok ==> out == rows
  {
    out := rows;
    if !page.JObject? {
      return out, false;
    }
    var register := Iterate(GetOr(page.fields, "register", JArray([])));
    if register.None? {
      return out, false;
    }
    var added := WritePage(year, PageNumber(page.fields), register.value);
    out := out + added;
    ok := true;
  }

  /** Lines 34-57: the header, then the nested loops over pages and entries; an exception ends the writing. */
  method ConvertRows(data: Json) returns (rows: seq<Row>, failed: bool)
    ensures (rows, failed) == CsvRows(data)
  {
    rows := [Header];
    failed := false;
    if !data.JObject? {
      failed := true;
      return;
    }
    var listed := Iterate(GetOr(data.fields, "pages", JArray([])));
    if listed.None? {
      failed := true;
      return;
    }
    CsvRowsOfPages(data, listed.value);
    var added;
    added, failed := WritePages(YearOf(data.fields), listed.value);
    rows := rows + added;
  }

  // ------------------------------------------------- a reference description

  /** Every page is a dict whose register can be iterated: nothing raises. */
  predicate PagesOk(pages: seq<Json>) {
    forall k :: 0 <= k < |pages| ==> PageRows(JNull, pages[k]).Some?
  }

  /** A prefix of pages that raise nothing raises nothing. */
  lemma PagesOkPrefix(pages: seq<Json>, n: nat)
    requires PagesOk(pages) && n <= |pages|
    ensures PagesOk(pages[..n])
  {
    var p := pages[..n];
    forall k | 0 <= k < n ensures PageRows(JNull, p[k]).Some? {
      assert p[k] == pages[k];
    }
  }

  /** The pairs (page number, entry) of one page, in entry order. */
  function Pairs(pageNumber: Json, entries: seq<Json>): (r: seq<(Json, Json)>)
    ensures |r| == |entries|
  {
    seq(|entries|, j requires 0 <= j < |entries| => (pageNumber, entries[j]))
  }

  /** The register of a page that does not raise. */
  function Register(page: Json): seq<Json>
    requires PageRows(JNull, page).Some?
  {
    Iterate(GetOr(page.fields, "register", JArray([]))).value
  }

  /** The (page number, entry) pairs of all pages, flattened in page order, then entry order. */
  function Entries(pages: seq<Json>): seq<(Json, Json)>
    requires PagesOk(pages)
  {
    if pages == [] then []
    else
      var last := pages[|pages| - 1];
      PagesOkPrefix(pages, |pages| - 1);
      Entries(pages[..|pages| - 1]) + Pairs(PageNumber(last.fields), Register(last))
  }

  /** The pairs whose entry is a dict, each turned into its row. */
  function DictRows(year: Json, xs: seq<(Json, Json)>): (r: seq<Row>)
    ensures forall k :: 0 <= k < |r| ==> |r[k]| == 5 && r[k][0] == year
  {
    if xs == [] then []
    else
      var last := xs[|xs| - 1];
      DictRows(year, xs[..|xs| - 1]) + (if last.1.JObject? then [EntryRow(year, last.0, last.1.fields)] else [])
  }

  lemma {:induction false} DictRowsAppend(year: Json, a: seq<(Json, Json)>, b: seq<(Json, Json)>)
    ensures DictRows(year, a + b) == DictRows(year, a) + DictRows(year, b)
    decreases |b|
  {
    if b == [] {
      assert a + b == a;
    } else {
      var b' := b[..|b| - 1];
      assert (a + b)[..|a + b| - 1] == a + b';
      DictRowsAppend(year, a, b');
    }
  }

  /** The rows of one page are the rows of its (page number, entry) pairs. */
  lemma {:induction false} EntryRowsAsPairs(year: Json, pn: Json, entries: seq<Json>)
    ensures EntryRows(year, pn, entries) == DictRows(year, Pairs(pn, entries))
    decreases |entries|
  {
    if entries != [] {
      var e' := entries[..|entries| - 1];
      EntryRowsAsPairs(year, pn, e');
      assert Pairs(pn, entries)[..|entries| - 1] == Pairs(pn, e');
    }
  }

  /**
   * When nothing raises, the data rows are the rows of all dict entries of all
   * pages, in page order and then entry order: one row per dict entry.
   */
  lemma {:induction false} RowsInPageOrder(year: Json, pages: seq<Json>)
    requires PagesOk(pages)
    ensures RowsUntil(year, pages) == (DictRows(year, Entries(pages)), false)
    decreases |pages|
  {
    if pages != [] {
      var last := pages[|pages| - 1];
      var prefix := pages[..|pages| - 1];
      PagesOkPrefix(pages, |pages| - 1);
      RowsInPageOrder(year, prefix);
      assert PageRows(JNull, last).Some?;
      EntryRowsAsPairs(year, PageNumber(last.fields), Register(last));
      DictRowsAppend(year, Entries(prefix), Pairs(PageNumber(last.fields), Register(last)));
    }
  }

  /** How many of the pairs hold a dict entry. */
  function DictPairs(xs: seq<(Json, Json)>): nat {
    if xs == [] then 0 else DictPairs(xs[..|xs| - 1]) + (if xs[|xs| - 1].1.JObject? then 1 else 0)
  }

  lemma {:induction false} DictRowsCount(year: Json, xs: seq<(Json, Json)>)
    ensures |DictRows(year, xs)| == DictPairs(xs)
    decreases |xs|
  {
    if xs != [] {
      DictRowsCount(year, xs[..|xs| - 1]);
    }
  }

  /** A file that is written to the end has one row more than there are dict entries. */
  lemma RowCount(data: Json, pages: seq<Json>)
    requires data.JObject? && Iterate(GetOr(data.fields, "pages", JArray([]))) == Some(pages)
    requires PagesOk(pages)
    ensures !CsvRows(data).1
    ensures |CsvRows(data).0| == 1 + DictPairs(Entries(pages))
  {
    RowsInPageOrder(YearOf(data.fields), pages);
    DictRowsCount(YearOf(data.fields), Entries(pages));
  }
}
