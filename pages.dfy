/**
 * The enrichment pass of pull_pages.py over the sqlite table `data`, keyed by
 * its primary key `url`. Only the map-level effect of each SQL statement is
 * modelled; the HTTP request and the HTML handling of `pull_page` come in as
 * an opaque `fetch` function.
 */
module Pages {
  import opened Wrappers

  /** One row of table `data` apart from its key `url`. */
  datatype Row = Row(
    title: string,
    text: string,
    website: string,
    time: string,
    labelText: string)   // the column "label" (`label` is a Dafny keyword)

  type Table = map<string, Row>

  /** `title = '' OR text = ''`: the rows the pass selects. */
  predicate Unenriched(r: Row) {
    r.title == "" || r.text == ""
  }

  /** The keys `SELECT url FROM data WHERE title = '' OR text = ''` returns. */
  function UnenrichedUrls(t: Table): set<string> {
    set u | u in t && Unenriched(t[u])
  }

  /**
   * What the request and HTML parsing inside `pull_page` deliver for a url:
   * an exception anywhere (network, HTTP status, parsing), or the page's
   * stripped title and markdown body (each '' when the page has none).
   */
  datatype PageFetch = Failed | Parsed(title: string, content: string)

  /** `pull_page`: the (title, text) pair; every failure becomes ('', ''). */
  function PullPage(f: PageFetch): (page: (string, string))
    ensures f.Failed? ==> page == ("", "")
  {
    match f
    case Failed => ("", "")
    case Parsed(title, content) => (title, content)
  }

  /** A row after `UPDATE data SET title = ?, text = ?`. */
  function WithPage(r: Row, page: (string, string)): Row {
    r.(title := page.0, text := page.1)
  }

  /** The table once the rows with keys in `done` have been overwritten with their pages. */
  function Overwritten(t: Table, done: set<string>, fetch: string -> PageFetch): Table {
    map u | u in t :: if u in done then WithPage(t[u], PullPage(fetch(u))) else t[u]
  }

  /** Before any row is done the table is untouched. */
  lemma OverwrittenNone(t: Table, fetch: string -> PageFetch)
    ensures Overwritten(t, {}, fetch) == t
  {
  }

  /** Overwriting one more row that was not yet done extends the done set by that key. */
  lemma OverwrittenStep(t: Table, done: set<string>, u: string, fetch: string -> PageFetch)
    requires u in t && u !in done
    ensures Overwritten(t, done, fetch)[u := WithPage(t[u], PullPage(fetch(u)))]
         == Overwritten(t, done + {u}, fetch)
  {
  }

  /** The table after a complete pass: every selected row holds its page, every other row is as it was. */
  function Enriched(t: Table, fetch: string -> PageFetch): Table {
    Overwritten(t, UnenrichedUrls(t), fetch)
  }

  /**
   * A pass changes only `title` and `text`, and only of selected rows; each
   * selected row then holds exactly `pull_page(url)`, and the key set stays.
   */
  lemma EnrichedFrame(t: Table, fetch: string -> PageFetch, u: string)
    ensures Enriched(t, fetch).Keys == t.Keys
    ensures u in t ==> var r, r' := t[u], Enriched(t, fetch)[u];
      && r'.website == r.website && r'.time == r.time && r'.labelText == r.labelText
      && (!Unenriched(r) ==> r' == r)
      && (Unenriched(r) ==> (r'.title, r'.text) == PullPage(fetch(u)))
  {
  }

  /**
   * After a pass, the rows selected again are exactly the selected rows whose
   * page gave an empty title or text; in particular every failed fetch.
   */
  lemma EnrichedReselects(t: Table, fetch: string -> PageFetch)
    ensures UnenrichedUrls(Enriched(t, fetch))
         == set u | u in UnenrichedUrls(t) && (PullPage(fetch(u)).0 == "" || PullPage(fetch(u)).1 == "")
    ensures forall u :: u in UnenrichedUrls(t) && fetch(u).Failed? ==> u in UnenrichedUrls(Enriched(t, fetch))
  {
    var t' := Enriched(t, fetch);
    forall u | u in t
      ensures u in UnenrichedUrls(t') <==> u in UnenrichedUrls(t) && (PullPage(fetch(u)).0 == "" || PullPage(fetch(u)).1 == "")
    {
      assert u in t';
    }
  }

  /** With the same pages, a second pass changes nothing: the state a failed url keeps forever. */
  lemma EnrichedIdempotent(t: Table, fetch: string -> PageFetch)
    ensures Enriched(Enriched(t, fetch), fetch) == Enriched(t, fetch)
  {
    var t' := Enriched(t, fetch);
    EnrichedReselects(t, fetch);
    forall u | u in t'
      ensures Enriched(t', fetch)[u] == t'[u]
    {
      assert u in t;
    }
  }

  /** A row holding a title but no text loses the title when its page cannot be fetched. */
  lemma FailedFetchClearsTitle()
    ensures var t := map["https://example.com/a" := Row("Hi", "", "example.com", "1000", "")];
      Enriched(t, _ => Failed)["https://example.com/a"].title == ""
  {
    var t := map["https://example.com/a" := Row("Hi", "", "example.com", "1000", "")];
    assert "https://example.com/a" in UnenrichedUrls(t);
  }

  /** The sqlite file `db_path`; `data` is `None` while the table does not exist. */
  class Database {
    var data: Option<Table>

    constructor (existing: Option<Table>)
      ensures data == existing
    {
      data := existing;
    }

    /** `create_database`: `CREATE TABLE IF NOT EXISTS data (...)`, which leaves an existing table as it is. */
    method CreateDatabase()
      modifies this
      ensures old(data).Some? ==> data == old(data)
      ensures old(data).None? ==> data == Some(map[])
    {
      if data.None? {
        data := Some(map[]);
      }
    }

    /**
     * `SELECT url FROM data WHERE title = '' OR text = ''` and `fetchall()`:
     * every selected key exactly once, in no particular order.
     */
    method SelectUnenriched() returns (urls: seq<string>)
      requires data.Some?
      ensures forall u :: u in urls <==> u in UnenrichedUrls(data.value)
      ensures forall i, j :: 0 <= i < j < |urls| ==> urls[i] != urls[j]
      ensures |urls| == |UnenrichedUrls(data.value)|
    {
      var pending := UnenrichedUrls(data.value);
      urls := [];
      while pending != {}
        invariant pending <= UnenrichedUrls(data.value)
        invariant forall u :: u in urls <==> u in UnenrichedUrls(data.value) && u !in pending
        invariant forall i, j :: 0 <= i < j < |urls| ==> urls[i] != urls[j]
        invariant |urls| + |pending| == |UnenrichedUrls(data.value)|
        decreases |pending|
      {
        var u :| u in pending;
        urls := urls + [u];
        pending := pending - {u};
      }
    }

    /** `UPDATE data SET title = ?, text = ? WHERE url = ?`: a no-op when no row has that key. */
    method UpdateRow(url: string, title: string, text: string)
      requires data.Some?
      modifies this
      ensures data == Some(if url in old(data).value
        then old(data).value[url := WithPage(old(data).value[url], (title, text))]
        else old(data).value)
    {
      var t := data.value;
      if url in t {
        data := Some(t[url := WithPage(t[url], (title, text))]);
      }
    }

    /**
     * `update_database`: count and snapshot the selected urls, then fetch each
     * page and overwrite that row, committing row by row. Returns `ok = false`
     * (and changes nothing) where the first `SELECT` raises because the table
     * does not exist; otherwise the row count, the final progress count and
     * the urls visited, in visiting order.
     */
    method UpdateDatabase(fetch: string -> PageFetch) returns (ok: bool, totalRows: nat, progress: nat, visited: seq<string>)
      modifies this
      ensures ok <==> old(data).Some?
      ensures !ok ==> data == old(data) && visited == [] && progress == 0
      ensures ok ==> data == Some(Enriched(old(data).value, fetch))
      ensures ok ==> forall u :: u in visited <==> u in UnenrichedUrls(old(data).value)
      ensures forall i, j :: 0 <= i < j < |visited| ==> visited[i] != visited[j]
      ensures ok ==> totalRows == |UnenrichedUrls(old(data).value)| == |visited| == progress
    {
      if data.None? {
        return false, 0, 0, [];
      }
      ok := true;
      var t0 := data.value;
      totalRows := |UnenrichedUrls(t0)|;
      progress := 0;
      var urls := SelectUnenriched();
      ghost var done: set<string> := {};
      var i := 0;
      OverwrittenNone(t0, fetch);
      while i < |urls|
        invariant 0 <= i <= |urls|
        invariant forall u :: u in urls <==> u in UnenrichedUrls(t0)
        invariant forall u :: u in done <==> u in urls[..i]
        invariant data == Some(Overwritten(t0, done, fetch))
        invariant progress == i
      {
        var url := urls[i];
        var (title, text) := PullPage(fetch(url));
        assert url !in done;
        assert url in UnenrichedUrls(t0);
        UpdateRow(url, title, text);
        OverwrittenStep(t0, done, url, fetch);
        done := done + {url};
        assert urls[..i + 1] == urls[..i] + [url];
        progress := progress + 1;
        i := i + 1;
      }
      assert urls[..i] == urls;
      assert done == UnenrichedUrls(t0);
      visited := urls;
    }
  }
}
