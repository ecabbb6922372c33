/**
 * The item filter and record builder of the ingestion walk
 * (`fetch_url` inside `fetch_and_process_urls`, scrape_hackernews.py).
 *
 * The HTTP request and the JSON decoding are outside the model: a fetched
 * item arrives as `Option<Item>`, where `None` stands for every payload that
 * cannot pass the filter before any field is inspected (a request or decoding
 * error, JSON `null`, a value that is not an object).
 */
module Stories {
  import opened Wrappers
  import opened StrSplit

  /** The fields of a decoded item that the filter reads; `None` means the key is absent. */
  datatype Item = Item(
    kind: Option<string>,      // the JSON key "type"
    url: Option<string>,
    title: Option<string>,
    text: Option<string>,
    time: Option<int>)

  /** One output row of the walk (one line of the CSV file). */
  datatype Record = Record(
    url: string,
    title: string,
    text: string,
    website: string,
    time: Option<int>,
    labelText: string)   // the CSV column "label" (`label` is a Dafny keyword)

  /** No character of `s` is a slash. */
  predicate SlashFree(s: string) {
    forall k :: 0 <= k < |s| ==> s[k] != '/'
  }

  /**
   * `host` is the text of `url` that follows the leftmost "//" (which starts
   * at index `i`) up to the next "/" or the end of `url`.
   */
  predicate HostAt(url: string, i: int, host: string) {
    && OccursAt(url, "//", i)
    && (forall j :: 0 <= j < i ==> !OccursAt(url, "//", j))
    && i + 2 + |host| <= |url|
    && url[i + 2..i + 2 + |host|] == host
    && SlashFree(host)
    && (i + 2 + |host| == |url| || url[i + 2 + |host|] == '/')
  }

  /**
   * `url.split("//")[1].split("/")[0]`; `None` where indexing `[1]` raises
   * IndexError because `url` has no "//".
   */
  function Website(url: string): (w: Option<string>)
    ensures w.None? <==> !Contains(url, "//")
  {
    var parts := Split(url, "//");
    if |parts| < 2 then None else Some(Split(parts[1], "/")[0])
  }

  /** A one-character slice is "/" exactly when that character is a slash. */
  lemma SlashAt(s: string, j: int)
    requires 0 <= j < |s|
    ensures OccursAt(s, "/", j) <==> s[j] == '/'
  {
    assert s[j..j + 1] == [s[j]];
  }

  /** The host of a url is unique: the leftmost "//" and the next "/" fix it. */
  lemma HostAtUnique(url: string, i: int, host: string, i': int, host': string)
    requires HostAt(url, i, host) && HostAt(url, i', host')
    ensures i == i' && host == host'
  {
  }

  /** The second part of `s.split(sep)` is the first part of what follows the first occurrence, at `i`. */
  lemma SecondPart(s: string, sep: string, i: nat)
    requires |sep| > 0 && Find(s, sep) == Some(i)
    ensures |Split(s, sep)| >= 2
    ensures Split(s, sep)[1] == Split(s[i + |sep|..], sep)[0]
  {
    var parts := Split(s[i + |sep|..], sep);
    assert Split(s, sep) == [s[..i]] + parts;
  }

  /**
   * Within `rest`, the first part of splitting its first "//"-part at "/" is
   * a slash-free prefix of `rest` that ends at a slash or at the end.
   */
  lemma HostOfRest(rest: string)
    ensures var w := Split(rest[..Cut(rest, "//")], "/")[0];
      && |w| <= |rest| && rest[..|w|] == w && SlashFree(w)
      && (|w| == |rest| || rest[|w|] == '/')
  {
    var k := Cut(rest, "//");
    var p1 := rest[..k];
    var m := Cut(p1, "/");
    var w := p1[..m];
    SplitFirst(p1, "/");
    forall j | 0 <= j < m ensures w[j] != '/' {
      SlashAt(p1, j);
    }
    if m < |p1| {
      SlashAt(p1, m);
    } else if k < |rest| {
      assert rest[k..k + 2] == "//";
    }
  }

  /** `Website` takes the text after the leftmost "//" up to the next "//", then its text up to the first "/". */
  lemma WebsiteOfRest(url: string, i: nat)
    requires Find(url, "//") == Some(i)
    ensures Website(url) == Some(Split(url[i + 2..][..Cut(url[i + 2..], "//")], "/")[0])
  {
    SecondPart(url, "//", i);
    SplitFirst(url[i + 2..], "//");
  }

  /** What `Website` computes is the host that follows the leftmost "//". */
  lemma WebsiteHost(url: string)
    requires Website(url).Some?
    ensures HostAt(url, Find(url, "//").value, Website(url).value)
  {
    var i := Find(url, "//").value;
    var rest := url[i + 2..];
    WebsiteOfRest(url, i);
    HostOfRest(rest);
    HostAtIntro(url, i, Website(url).value);
  }

  /** `HostAt` from the same facts stated on the text after the "//". */
  lemma HostAtIntro(url: string, i: nat, w: string)
    requires OccursAt(url, "//", i) && forall j :: 0 <= j < i ==> !OccursAt(url, "//", j)
    requires |w| <= |url[i + 2..]| && url[i + 2..][..|w|] == w && SlashFree(w)
    requires |w| == |url[i + 2..]| || url[i + 2..][|w|] == '/'
    ensures HostAt(url, i, w)
  {
    assert url[i + 2..i + 2 + |w|] == url[i + 2..][..|w|];
  }

  /** `Website` yields exactly the host of the url: the text after the leftmost "//" up to the next "/" or the end. */
  lemma WebsiteIsHost(url: string, host: string)
    ensures Website(url) == Some(host) <==> exists i :: HostAt(url, i, host)
  {
    if Website(url).Some? {
      WebsiteHost(url);
      if exists i' :: HostAt(url, i', host) {
        var i' :| HostAt(url, i', host);
        HostAtUnique(url, Find(url, "//").value, Website(url).value, i', host);
      }
    }
  }

  /** The test of `fetch_url` before the record is built: a truthy item of type "story" with a non-empty url. */
  predicate IsLinkedStory(payload: Option<Item>) {
    && payload.Some?
    && payload.value.kind == Some("story")
    && payload.value.url.Some?
    && payload.value.url.value != ""
  }

  /**
   * `fetch_url` after decoding: only a story with a non-empty url yields a
   * record, and a url without "//" raises IndexError, which is caught and
   * yields nothing as well.
   */
  function FetchStory(payload: Option<Item>): (r: Option<Record>)
    ensures r.Some? <==>
      payload.Some? && payload.value.kind == Some("story") && payload.value.url.Some?
      && payload.value.url.value != "" && Contains(payload.value.url.value, "//")
    ensures r.Some? ==>
      && r.value.url == payload.value.url.value
      && r.value.title == payload.value.title.GetOr("")
      && r.value.text == payload.value.text.GetOr("")
      && r.value.time == payload.value.time
      && r.value.labelText == ""
  {
    if IsLinkedStory(payload) then
      var item := payload.value;
      match Website(item.url.value)
      case None => None
      case Some(host) =>
        Some(Record(item.url.value, item.title.GetOr(""), item.text.GetOr(""), host, item.time, ""))
    else None
  }

  /** The website of a produced record is the host of its url. */
  lemma RecordWebsiteIsHost(payload: Option<Item>)
    requires FetchStory(payload).Some?
    ensures exists i :: HostAt(FetchStory(payload).value.url, i, FetchStory(payload).value.website)
  {
    var r := FetchStory(payload).value;
    WebsiteIsHost(r.url, r.website);
  }

  /** The host of the worked example's url. */
  lemma ExampleWebsite()
    ensures Website("https://example.com/a") == Some("example.com")
  {
    var url := "https://example.com/a";
    forall j | 0 <= j < 6 ensures !OccursAt(url, "//", j) {
      assert url[j] != '/';
      assert url[j..j + 2][0] == url[j];
    }
    assert url[6..8] == "//";
    assert url[8..19] == "example.com";
    assert SlashFree("example.com");
    assert url[19] == '/';
    assert HostAt(url, 6, "example.com");
    WebsiteIsHost(url, "example.com");
  }

  /** The worked example: a story with a link becomes a record with its host. */
  lemma ExampleStory()
    ensures FetchStory(Some(Item(Some("story"), Some("https://example.com/a"), Some("Hi"), None, Some(1000))))
         == Some(Record("https://example.com/a", "Hi", "", "example.com", Some(1000), ""))
  {
    ExampleWebsite();
  }

  /** What `fetch_url` returns for each id, with the request and decoding done by `fetch`. */
  function FetchUrl(fetch: int -> Option<Item>): int -> Option<Record> {
    id => FetchStory(fetch(id))
  }

  /** The zero or one records one result contributes. */
  function Hit(result: Option<Record>): seq<Record> {
    match result
    case Some(r) => [r]
    case None => []
  }

  /**
   * The results `fetch_and_process_urls` yields for `ids` (the non-`None` ones),
   * in id order; the thread pool yields them in completion order, so only
   * their multiset is meaningful.
   */
  function Yielded(fetchUrl: int -> Option<Record>, ids: seq<int>): seq<Record>
    decreases |ids|
  {
    if |ids| == 0 then []
    else Hit(fetchUrl(ids[0])) + Yielded(fetchUrl, ids[1..])
  }

  lemma {:induction false} YieldedAppend(fetchUrl: int -> Option<Record>, a: seq<int>, b: seq<int>)
    ensures Yielded(fetchUrl, a + b) == Yielded(fetchUrl, a) + Yielded(fetchUrl, b)
    decreases |a|
  {
    if a == [] {
      assert a + b == b;
    } else {
      assert (a + b)[0] == a[0];
      assert (a + b)[1..] == a[1..] + b;
      YieldedAppend(fetchUrl, a[1..], b);
    }
  }

  /** A record is yielded exactly when some id of the chunk produces it. */
  lemma {:induction false} YieldedMember(fetchUrl: int -> Option<Record>, ids: seq<int>, r: Record)
    ensures r in Yielded(fetchUrl, ids) <==> exists id :: id in ids && fetchUrl(id) == Some(r)
    decreases |ids|
  {
    if ids != [] {
      YieldedMember(fetchUrl, ids[1..], r);
      if exists id :: id in ids && fetchUrl(id) == Some(r) {
        var id :| id in ids && fetchUrl(id) == Some(r);
        if id != ids[0] {
          assert id in ids[1..];
        }
      }
    }
  }

  /** Taking the id at `k` out of a list takes out one copy of it. */
  lemma MultisetRemove(b: seq<int>, k: int)
    requires 0 <= k < |b|
    ensures multiset(b[..k] + b[k + 1..]) == multiset(b) - multiset{b[k]}
  {
    assert b == b[..k] + [b[k]] + b[k + 1..];
  }

  /** The records yielded for a list are those of its id at `k` beside those of the rest. */
  lemma YieldedRemove(fetchUrl: int -> Option<Record>, b: seq<int>, k: int)
    requires 0 <= k < |b|
    ensures multiset(Yielded(fetchUrl, b))
         == multiset(Hit(fetchUrl(b[k]))) + multiset(Yielded(fetchUrl, b[..k] + b[k + 1..]))
  {
    var pre, at, post := b[..k], b[k..], b[k + 1..];
    assert b == pre + at;
    YieldedAppend(fetchUrl, pre, at);
    assert at[0] == b[k] && at[1..] == post;
    assert Yielded(fetchUrl, at) == Hit(fetchUrl(b[k])) + Yielded(fetchUrl, post);
    YieldedAppend(fetchUrl, pre, post);
  }

  /** The completion order of the fetches cannot change which records are yielded, nor how often. */
  lemma {:induction false} YieldedOrderFree(fetchUrl: int -> Option<Record>, a: seq<int>, b: seq<int>)
    requires multiset(a) == multiset(b)
    ensures multiset(Yielded(fetchUrl, a)) == multiset(Yielded(fetchUrl, b))
    decreases |a|
  {
    if a == [] {
      assert |b| == |multiset(b)| == 0;
    } else {
      var x := a[0];
      assert x in multiset(b);
      var k :| 0 <= k < |b| && b[k] == x;
      assert a == [x] + a[1..];
      MultisetRemove(b, k);
      YieldedOrderFree(fetchUrl, a[1..], b[..k] + b[k + 1..]);
      YieldedRemove(fetchUrl, b, k);
    }
  }

  /**
   * `fetch_and_process_urls`: call `fetch_url` once for every id of a chunk
   * and yield every result that is not `None`. The results are collected in
   * id order; `YieldedOrderFree` covers any other completion order.
   */
  method FetchAndProcess(fetchUrl: int -> Option<Record>, ids: seq<int>) returns (out: seq<Record>)
    ensures out == Yielded(fetchUrl, ids)
    ensures |out| <= |ids|
  {
    out := [];
    for i := 0 to |ids|
      invariant out == Yielded(fetchUrl, ids[..i])
      invariant |out| <= i
    {
      assert ids[..i + 1] == ids[..i] + [ids[i]];
      YieldedAppend(fetchUrl, ids[..i], [ids[i]]);
      var result := fetchUrl(ids[i]);
      if result.Some? {
        out := out + [result.value];
      }
    }
    assert ids[..|ids|] == ids;
  }
}
