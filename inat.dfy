/** The observation fetcher of inatobvs.py: the URL checks of the `INatObvs`
    constructor, the page rewrite `_change_page`, `_ceildiv`, `_per_page`, the
    paging loop of `get_data` with its key whitelist, and the URL rewrite of
    `download`. The network is a parameter: `fetch` gives the decoded page a
    URL answers with, and `download` returns the retrievals it would make. */
module INat {
  import opened Wrappers
  import opened PyStr

  /** A JSON value as `json.loads` gives it; numbers are integers here. */
  datatype Json =
    | JNull
    | JBool(b: bool)
    | JNum(n: int)
    | JStr(s: string)
    | JArr(items: seq<Json>)
    | JObj(fields: map<string, Json>)

  /** One observation record of a results page. */
  type Record = map<string, Json>

  /** A decoded response: `int(response['total_results'])` and `response['results']`. */
  datatype Page = Page(totalResults: int, results: seq<Record>)

  const PageKey := "&page="
  const PerPageKey := "&per_page="

  // ---------------------------------------------------------------------------
  // _ceildiv
  // ---------------------------------------------------------------------------

  /** Python's `a // b`: the quotient rounded towards minus infinity. */
  function FloorDiv(a: int, b: int): (r: Result<int>)
    ensures b == 0 <==> r == Err(ZeroDivisionError)
    ensures b > 0 && r.Ok? ==> r.value * b <= a < r.value * b + b
    ensures b < 0 && r.Ok? ==> r.value * b >= a > r.value * b + b
  {
    if b == 0 then Err(ZeroDivisionError)
    else if b > 0 || a % b == 0 then Ok(a / b)
    else Ok(a / b - 1)
  }

  /** `_ceildiv(a, b)`: `-(-a // b)`. */
  function CeilDiv(a: int, b: int): (r: Result<int>)
    ensures b == 0 <==> r == Err(ZeroDivisionError)
    ensures b > 0 && r.Ok? ==> r.value * b >= a && (r.value - 1) * b < a
    ensures b < 0 && r.Ok? ==> r.value * b <= a && (r.value - 1) * b > a
  {
    var q :- FloorDiv(-a, b);
    Ok(-q)
  }

  /** For a positive divisor, `_ceildiv` is the least `q` with `q * b >= a`. */
  lemma {:induction false} CeilDivLeast(a: int, b: int, q: int)
    requires b > 0
    ensures CeilDiv(a, b).Ok?
    ensures q * b >= a <==> q >= CeilDiv(a, b).value
  {
    var c := CeilDiv(a, b).value;
    if q >= c {
      assert q * b >= c * b by { MulMonotone(c, q, b); }
    } else {
      assert q * b <= (c - 1) * b by { MulMonotone(q, c - 1, b); }
    }
  }

  lemma MulMonotone(x: int, y: int, b: int)
    requires x <= y && b > 0
    ensures x * b <= y * b
  {
    assert y * b - x * b == (y - x) * b;
  }

  // ---------------------------------------------------------------------------
  // _change_page
  // ---------------------------------------------------------------------------

  /** The part of `link` that `_change_page` keeps in front of `&page=`:
      `link[:pageIndex]` with `pageIndex = link.find('&page=')`, so all but the
      last character when `&page=` is absent. */
  function Head(link: string): (r: string)
    ensures |r| <= |link| && r == link[..|r|]
    ensures Find(link, PageKey) >= 0 ==> |r| == Find(link, PageKey)
    ensures Find(link, PageKey) == -1 && |link| > 0 ==> |r| == |link| - 1
  {
    Slice(link, 0, Find(link, PageKey))
  }

  /** The part that `_change_page` keeps after the page value: what follows
      the first `&` after `pageIndex`, if there is one. `pageIndex` is at
      least -1, so the slice `link[pageIndex + 1:]` needs no clamping;
      `TailIsSplit` shows this is the second piece of its `split('&', 1)`. */
  function Tail(link: string): (r: Option<string>)
    ensures r.None? <==> '&' !in link[Find(link, PageKey) + 1..]
    ensures r.Some? ==> |r.value| < |link| && r.value == link[|link| - |r.value|..]
  {
    var start := Find(link, PageKey) + 1;
    var rest := link[start..];
    var amp := IndexOf(rest, '&');
    if amp < 0 then None
    else
      assert rest[amp + 1..] == link[start + amp + 1..];
      Some(rest[amp + 1..])
  }

  lemma TailIsSplit(link: string)
    ensures var splitLink := SplitOnce(Slice(link, Find(link, PageKey) + 1, |link|), '&');
      Tail(link) == if |splitLink| < 2 then None else Some(splitLink[1])
  {
  }

  /** `_change_page(link, p)`: raise for `p < 1`; otherwise the head,
      `&page=<p>&`, and the tail, whose absence makes `splitLink[1]` raise
      `IndexError`. */
  function ChangePage(link: string, p: int): (r: Result<string>)
    ensures p < 1 ==> r == Err(Raised("Page number must be greater than 0"))
    ensures p >= 1 ==> (r.Ok? <==> Tail(link).Some?)
    ensures p >= 1 && r.Err? ==> r.error == IndexError
  {
    if p < 1 then Err(Raised("Page number must be greater than 0"))
    else if Tail(link).None? then Err(IndexError)
    else Ok(Head(link) + PageKey + IntToString(p) + "&" + Tail(link).value)
  }

  /** `&page=` never occurs in the part kept in front of it. */
  lemma {:induction false} HeadFree(link: string)
    ensures Find(Head(link), PageKey) == -1
  {
    var i := Find(link, PageKey);
    var h := Head(link);
    forall j | 0 <= j ensures !OccursAt(h, PageKey, j) {
      if OccursAt(h, PageKey, j) {
        assert h == link[..|h|];
        assert h[j..j + |PageKey|] == link[j..j + |PageKey|];
        assert OccursAt(link, PageKey, j);
        assert false;
      }
    }
  }

  /** The first `sep` of `x + [sep] + t`, `sep` not in `x`, is the one after `x`. */
  lemma IndexOfAfter(x: string, sep: char, t: string)
    requires sep !in x
    ensures IndexOf(x + [sep] + t, sep) == |x|
    ensures (x + [sep] + t)[|x| + 1..] == t
  {
    var s := x + [sep] + t;
    var i := IndexOf(s, sep);
    assert s[|x|] == sep;
    assert s[..|x|] == x;
    assert sep in s[..|x| + 1] by { assert s[..|x| + 1][|x|] == sep; }
    assert forall k :: 0 <= k < |x| ==> s[k] == x[k];
  }

  /** The head and tail of a link with one `&page=` value followed by `&`. */
  lemma HeadTailOf(a: string, v: string, rest: string)
    requires Find(a, PageKey) == -1
    requires '&' !in v
    ensures Head(a + PageKey + v + "&" + rest) == a
    ensures Tail(a + PageKey + v + "&" + rest) == Some(rest)
  {
    assert a + PageKey + v + "&" + rest == a + PageKey + (v + "&" + rest);
    HeadOf(a, v + "&" + rest);
    TailOf(a, v, rest);
  }

  lemma HeadOf(a: string, after: string)
    requires Find(a, PageKey) == -1
    ensures Head(a + PageKey + after) == a
  {
    var link := a + PageKey + after;
    FindAfterFreePrefix(a, PageKey, after);
    assert link[..|a|] == a;
  }

  lemma TailOf(a: string, v: string, rest: string)
    requires Find(a, PageKey) == -1
    requires '&' !in v
    ensures Tail(a + PageKey + v + "&" + rest) == Some(rest)
  {
    var link := a + PageKey + v + "&" + rest;
    assert link == a + PageKey + (v + "&" + rest);
    FindAfterFreePrefix(a, PageKey, v + "&" + rest);
    var x := "page=" + v;
    assert link[|a| + 1..] == x + ['&'] + rest;
    assert '&' !in x;
    IndexOfAfter(x, '&', rest);
  }

  lemma NoAmpInNumber(p: int)
    ensures '&' !in IntToString(p)
  {
    var s := IntToString(p);
    forall k | 0 <= k < |s| ensures s[k] != '&' {
      assert IsDigit(s[k]) || s[k] == '-';
    }
  }

  /** Rewriting keeps the text before the first `&page=`, writes the new value,
      and keeps everything after the next `&` unchanged. */
  lemma {:induction false} ChangePageRewrites(a: string, v: string, rest: string, p: int)
    requires Find(a, PageKey) == -1
    requires '&' !in v
    requires p >= 1
    ensures ChangePage(a + PageKey + v + "&" + rest, p) == Ok(a + PageKey + IntToString(p) + "&" + rest)
  {
    HeadTailOf(a, v, rest);
  }

  /** With `&page=` followed by no `&`, `splitLink[1]` fails. */
  lemma {:induction false} ChangePageNeedsAmp(a: string, v: string, p: int)
    requires Find(a, PageKey) == -1
    requires '&' !in v
    requires p >= 1
    ensures ChangePage(a + PageKey + v, p) == Err(IndexError)
  {
    var link := a + PageKey + v;
    assert link == a + PageKey + v + [];
    FindAfterFreePrefix(a, PageKey, v);
    assert link[|a| + 1..] == "page=" + v;
    assert '&' !in "page=" + v;
  }

  /** Whether `_change_page` succeeds does not depend on the page number. */
  lemma ChangePageOkAnyPage(link: string, p: int, q: int)
    requires p >= 1 && q >= 1
    ensures ChangePage(link, p).Ok? <==> ChangePage(link, q).Ok?
  {
  }

  /** The text a successful rewrite produces is rewritten the same way as the
      original: only the last page number counts. */
  lemma {:induction false} ChangePageTwice(link: string, p: int, q: int)
    requires ChangePage(link, p).Ok? && q >= 1
    ensures ChangePage(ChangePage(link, p).value, q) == ChangePage(link, q)
  {
    ChangePageForm(link, p);
    ChangePageForm(link, q);
    HeadFree(link);
    RewriteTwice(Head(link), Tail(link).value, p, q);
  }

  /** A successful rewrite is the head, `&page=<p>&` and the tail. */
  lemma ChangePageForm(link: string, p: int)
    requires p >= 1 && Tail(link).Some?
    ensures ChangePage(link, p) == Ok(Head(link) + PageKey + IntToString(p) + "&" + Tail(link).value)
  {
  }

  lemma RewriteTwice(h: string, t: string, p: int, q: int)
    requires Find(h, PageKey) == -1 && p >= 1 && q >= 1
    ensures ChangePage(h + PageKey + IntToString(p) + "&" + t, q) == Ok(h + PageKey + IntToString(q) + "&" + t)
  {
    NoAmpInNumber(p);
    ChangePageRewrites(h, IntToString(p), t, q);
  }

  /** Rewriting twice with the same number is rewriting once. */
  lemma ChangePageIdempotent(link: string, p: int)
    requires ChangePage(link, p).Ok?
    ensures ChangePage(ChangePage(link, p).value, p) == ChangePage(link, p)
  {
    ChangePageTwice(link, p, p);
  }

  // ---------------------------------------------------------------------------
  // _per_page and the constructor's checks
  // ---------------------------------------------------------------------------

  /** The text `_per_page()` parses: `url[pp_index:pp_index + next_param]`,
      from the end of the first `&per_page=` to the next `&`. When
      `&per_page=` is absent, `find` gives -1 and the text starts 9 characters
      in; when no `&` follows, `next_param` is -1 and the slice is empty.
      `PerPageTextIsSlice` shows this is Python's slice. */
  function PerPageText(url: string): (r: string)
    ensures '&' !in r
    ensures |r| <= |url|
  {
    var ppIndex := Find(url, PerPageKey) + |PerPageKey|;
    var rest := if ppIndex <= |url| then url[ppIndex..] else [];
    var nextParam := Find(rest, "&");
    FindSingle(rest, '&');
    if nextParam < 0 then [] else rest[..nextParam]
  }

  lemma PerPageTextIsSlice(url: string)
    ensures var ppIndex := Find(url, PerPageKey) + |PerPageKey|;
      PerPageText(url) == Slice(url, ppIndex, ppIndex + Find(Slice(url, ppIndex, |url|), "&"))
  {
  }

  /** `_per_page()`: `int` of that text. */
  function PerPage(url: string): (r: Result<int>)
    ensures r.Err? ==> r.error == ValueError
  {
    ParseInt(PerPageText(url))
  }

  lemma AmpFree(s: string)
    requires '&' !in s
    ensures Find(s, "&") == -1
  {
    FindSingle(s, '&');
  }

  /** Where `_per_page` starts reading when `&per_page=` first ends after `a`. */
  lemma PerPageStart(a: string, tail: string)
    requires Find(a, PerPageKey) == -1
    ensures Find(a + PerPageKey + tail, PerPageKey) + |PerPageKey| == |a + PerPageKey|
    ensures (a + PerPageKey + tail)[|a + PerPageKey|..] == tail
  {
    assert a + PerPageKey + tail == a + PerPageKey + tail + [];
    FindAfterFreePrefix(a, PerPageKey, tail);
    assert (a + PerPageKey + tail)[|a + PerPageKey|..] == tail;
  }

  lemma AmpAfterDigits(ds: string, rest: string)
    requires AllDigits(ds)
    ensures Find(ds + "&" + rest, "&") == |ds|
  {
    assert '&' !in ds by {
      forall k | 0 <= k < |ds| ensures ds[k] != '&' { assert IsDigit(ds[k]); }
    }
    AmpFree(ds);
    FindAfterFreePrefix(ds, "&", rest);
  }

  /** The digits between `&per_page=` and the next `&` are the page size. */
  lemma {:induction false} PerPageParses(a: string, ds: string, rest: string)
    requires Find(a, PerPageKey) == -1
    requires |ds| > 0 && AllDigits(ds)
    ensures PerPage(a + PerPageKey + ds + "&" + rest) == Ok(DigitsValue(ds))
  {
    var tail := ds + "&" + rest;
    var url := a + PerPageKey + tail;
    assert url == a + PerPageKey + ds + "&" + rest;
    PerPageStart(a, tail);
    AmpAfterDigits(ds, rest);
    assert PerPageText(url) == tail[..|ds|] == ds;
  }

  /** `per_page` as the last parameter leaves the slice empty, and `int('')` fails. */
  lemma {:induction false} PerPageLast(a: string, v: string)
    requires Find(a, PerPageKey) == -1
    requires '&' !in v
    ensures PerPage(a + PerPageKey + v) == Err(ValueError)
  {
    PerPageStart(a, v);
    AmpFree(v);
    assert PerPageText(a + PerPageKey + v) == [];
  }

  /** The checks of the constructor: `not url.find(...)` is true only when
      `find` returns 0, since the -1 of an absent substring is truthy. */
  function CheckUrl(url: string): (r: Result<string>)
    ensures r.Err? <==> Find(url, "per_page") == 0 || Find(url, PageKey) == 0
    ensures r.Ok? ==> r.value == url
    ensures Find(url, "per_page") == 0 ==>
      r == Err(Raised("GET request url needs to have a per_page parameter"))
  {
    if Find(url, "per_page") == 0 then Err(Raised("GET request url needs to have a per_page parameter"))
    else if Find(url, PageKey) == 0 then Err(Raised("GET request url needs to have a page parameter"))
    else Ok(url)
  }

  /** A URL with neither parameter anywhere passes both checks. */
  lemma CheckUrlMissingParams(url: string)
    requires forall i :: !OccursAt(url, "per_page", i)
    requires forall i :: !OccursAt(url, PageKey, i)
    ensures CheckUrl(url) == Ok(url)
  {
  }

  /** A URL that starts with `&page=` is the one that raises for the page parameter. */
  lemma CheckUrlPageFirst(rest: string)
    ensures CheckUrl(PageKey + rest) == Err(Raised("GET request url needs to have a page parameter"))
  {
    var url := PageKey + rest;
    assert OccursAt(url, PageKey, 0) by { assert url[..|PageKey|] == PageKey; }
    assert url[0] == '&';
    if |url| >= 8 {
      assert url[0..8][0] == '&';
    }
  }

  // ---------------------------------------------------------------------------
  // get_data
  // ---------------------------------------------------------------------------

  /** The keys `get_data` keeps from each observation. */
  const Whitelist: set<string> := {
    "observed_on", "observed_on_details",
    "created_at", "created_at_details",
    "geojson",
    "place_ids", "uri", "user", "location", "place_guess", "photos", "id"
  }

  /** The dictionary comprehension of `get_data`. */
  function Whitelisted(rec: Record): (r: Record)
    ensures r.Keys == rec.Keys * Whitelist
    ensures forall k :: k in r ==> r[k] == rec[k]
  {
    map k | k in rec && k in Whitelist :: rec[k]
  }

  /** Filtering twice is filtering once. */
  lemma WhitelistedIdempotent(rec: Record)
    ensures Whitelisted(Whitelisted(rec)) == Whitelisted(rec)
  {
  }

  /** Each record of a page, filtered. */
  function FilterAll(rs: seq<Record>): (out: seq<Record>)
    ensures |out| == |rs|
    ensures forall j :: 0 <= j < |rs| ==> out[j] == Whitelisted(rs[j])
  {
    seq(|rs|, j requires 0 <= j < |rs| => Whitelisted(rs[j]))
  }

  /** The number of pages: `_ceildiv(total_results, _per_page())`. */
  function PageCount(url: string, total: int): (r: Result<int>)
    ensures r.Err? ==> r.error == ValueError || r.error == ZeroDivisionError
  {
    var pp :- PerPage(url);
    CeilDiv(total, pp)
  }

  /** The link `get_data` requests for page `p`: `_change_page(url, p)`. */
  function Links(url: string): int -> Result<string> {
    p => ChangePage(url, p)
  }

  /** The records of pages `1..n`, page `i` fetched from `link(i)`. */
  function Collected(link: int -> Result<string>, fetch: string -> Page, n: nat): Result<seq<Record>> {
    if n == 0 then Ok([])
    else
      var prev :- Collected(link, fetch, n - 1);
      var l :- link(n);
      Ok(prev + FilterAll(fetch(l).results))
  }

  /** `get_data()`: one request for the total, then pages `1..pages`. */
  function GetDataSpec(url: string, fetch: string -> Page): Result<seq<Record>> {
    var pages :- PageCount(url, fetch(url).totalResults);
    if pages <= 0 then Ok([]) else Collected(Links(url), fetch, pages)
  }

  /** `get_data()`: one request for the total, then the paging loop. Besides
      the records it returns the URLs it requested, in order: `url` itself,
      then the rewrite for each page. */
  method GetData(url: string, fetch: string -> Page) returns (r: Result<seq<Record>>, requested: seq<string>)
    ensures r == GetDataSpec(url, fetch)
    ensures |requested| >= 1 && requested[0] == url
    ensures r.Ok? ==>
      var pages := PageCount(url, fetch(url).totalResults).value;
      && |requested| == 1 + (if pages > 0 then pages else 0)
      && forall i :: 1 <= i < |requested| ==> ChangePage(url, i) == Ok(requested[i])
  {
    var response := fetch(url);
    var pp := PerPage(url);
    if pp.Err? {
      assert PageCount(url, response.totalResults) == Err(pp.error);
      return Err(pp.error), [url];
    }
    var count := CeilDiv(response.totalResults, pp.value);
    if count.Err? {
      assert PageCount(url, response.totalResults) == Err(count.error);
      return Err(count.error), [url];
    }
    var pages := count.value;
    assert PageCount(url, response.totalResults) == Ok(pages);
    var links;
    r, links := FetchPages(Links(url), fetch, pages);
    requested := [url] + links;
    forall i | 1 <= i < |requested|
      ensures ChangePage(url, i) == Ok(requested[i])
    {
      assert requested[i] == links[i - 1];
      assert Links(url)(i) == ChangePage(url, i);
    }
  }

  /** The paging loop of `get_data`: for `i` in `range(1, pages + 1)`, fetch
      `link(i)` and append the filtered records of the page. It also returns
      the links it fetched, in order. */
  method FetchPages(link: int -> Result<string>, fetch: string -> Page, pages: int)
    returns (r: Result<seq<Record>>, links: seq<string>)
    ensures r == if pages <= 0 then Ok([]) else Collected(link, fetch, pages)
    ensures r.Ok? ==> |links| == (if pages > 0 then pages else 0)
    ensures forall k :: 0 <= k < |links| ==> link(k + 1) == Ok(links[k])
  {
    links := [];
    var allResults: seq<Record> := [];
    var i := 1;
    while i <= pages
      invariant 1 <= i <= (if pages > 0 then pages + 1 else 1)
      invariant Collected(link, fetch, i - 1) == Ok(allResults)
      invariant |links| == i - 1
      invariant forall k :: 0 <= k < i - 1 ==> link(k + 1) == Ok(links[k])
    {
      var next := link(i);
      CollectedStep(link, fetch, i);
      if next.Err? {
        CollectedErr(link, fetch, i, pages, next.error);
        return Err(next.error), links;
      }
      LinksSnoc(link, links, next.value);
      links := links + [next.value];
      var results := PageRecords(fetch(next.value).results);
      allResults := allResults + results;
      i := i + 1;
    }
    if pages <= 0 {
      assert Collected(link, fetch, 0) == Ok([]);
    }
    r := Ok(allResults);
  }

  /** `links` are the links of pages `1..|links|`. */
  lemma LinksSnoc(link: int -> Result<string>, links: seq<string>, next: string)
    requires forall k :: 0 <= k < |links| ==> link(k + 1) == Ok(links[k])
    requires link(|links| + 1) == Ok(next)
    ensures forall k :: 0 <= k < |links| + 1 ==> link(k + 1) == Ok((links + [next])[k])
  {
  }

  /** The inner loop of `get_data`: each record of a page replaced, in
      place, by its filtered form. */
  method PageRecords(page: seq<Record>) returns (results: seq<Record>)
    ensures results == FilterAll(page)
  {
    results := page;
    for j := 0 to |results|
      invariant |results| == |page|
      invariant forall k :: 0 <= k < j ==> results[k] == Whitelisted(page[k])
      invariant forall k :: j <= k < |results| ==> results[k] == page[k]
    {
      results := results[j := Whitelisted(results[j])];
    }
  }

  /** One more page: its records follow those of the pages before it. */
  lemma CollectedStep(link: int -> Result<string>, fetch: string -> Page, n: nat)
    requires n > 0
    ensures Collected(link, fetch, n)
      == if Collected(link, fetch, n - 1).Err? then Err(Collected(link, fetch, n - 1).error)
         else if link(n).Err? then Err(link(n).error)
         else Ok(Collected(link, fetch, n - 1).value + FilterAll(fetch(link(n).value).results))
  {
  }

  /** Once a page fails, collecting more pages fails with the same error. */
  lemma {:induction false} CollectedErr(link: int -> Result<string>, fetch: string -> Page, i: nat, n: nat, e: Error)
    requires i <= n && Collected(link, fetch, i) == Err(e)
    ensures Collected(link, fetch, n) == Err(e)
    decreases n - i
  {
    if i < n {
      CollectedStep(link, fetch, i + 1);
      CollectedErr(link, fetch, i + 1, n, e);
    }
  }

  /** `rec` is the filtered form of a record that one of pages `1..n` holds. */
  ghost predicate FromPage(link: int -> Result<string>, fetch: string -> Page, n: nat, rec: Record) {
    exists i: int, src: Record ::
      && 1 <= i <= n && link(i).Ok?
      && src in fetch(link(i).value).results && rec == Whitelisted(src)
  }

  /** Every record `get_data` returns holds only whitelisted keys, each with
      the value the server sent for it in some record of some page. */
  lemma {:induction false} CollectedWhitelisted(link: int -> Result<string>, fetch: string -> Page, n: nat)
    requires Collected(link, fetch, n).Ok?
    ensures forall rec :: rec in Collected(link, fetch, n).value ==>
      rec.Keys <= Whitelist && FromPage(link, fetch, n, rec)
  {
    if n > 0 {
      CollectedStep(link, fetch, n);
      CollectedWhitelisted(link, fetch, n - 1);
      var prev := Collected(link, fetch, n - 1).value;
      var l := link(n).value;
      var page := FilterAll(fetch(l).results);
      assert Collected(link, fetch, n).value == prev + page;
      forall rec: Record | rec in prev + page
        ensures rec.Keys <= Whitelist
        ensures FromPage(link, fetch, n, rec)
      {
        if rec !in prev {
          var j :| 0 <= j < |page| && page[j] == rec;
          var src := fetch(l).results[j];
          assert src in fetch(link(n).value).results && rec == Whitelisted(src);
        } else {
          assert FromPage(link, fetch, n - 1, rec);
        }
      }
    }
  }

  /** When page 1 can be rewritten, every page can, and collecting never fails. */
  lemma {:induction false} CollectedOk(url: string, fetch: string -> Page, n: nat)
    requires ChangePage(url, 1).Ok?
    ensures Collected(Links(url), fetch, n).Ok?
  {
    if n > 0 {
      CollectedOk(url, fetch, n - 1);
      ChangePageOkAnyPage(url, 1, n);
      assert Links(url)(n) == ChangePage(url, n);
      CollectedStep(Links(url), fetch, n);
    }
  }

  /** When page 1 cannot be rewritten, collecting any page fails with `IndexError`. */
  lemma {:induction false} CollectedFails(url: string, fetch: string -> Page, n: nat)
    requires ChangePage(url, 1).Err? && n > 0
    ensures Collected(Links(url), fetch, n) == Err(IndexError)
  {
    assert Links(url)(1) == ChangePage(url, 1);
    CollectedStep(Links(url), fetch, 1);
    CollectedErr(Links(url), fetch, 1, n, IndexError);
  }

  // ---------------------------------------------------------------------------
  // download
  // ---------------------------------------------------------------------------

  const Square := "square"

  /** `picture['url'].replace('square', size)`. */
  function PhotoUrl(url: string, size: string): string {
    Replace(url, Square, size)
  }

  /** An iNaturalist photo URL names its size once: rewriting it swaps that
      one word and keeps the rest. */
  lemma {:induction false} PhotoUrlOfSquare(a: string, b: string, size: string)
    requires Find(a, Square) == -1 && Find(b, Square) == -1
    ensures PhotoUrl(a + Square + b, size) == a + size + b
  {
    ReplaceAfterFreePrefix(a, Square, b, size);
  }

  /** Asking for `square` leaves the URL as it is. */
  lemma PhotoUrlSquare(url: string)
    ensures PhotoUrl(url, Square) == url
  {
    ReplaceBySelf(url, Square);
  }

  /** `str(x)` for the scalar values a photo id can be. */
  function Str(j: Json): (r: Result<string>)
    ensures r.Err? <==> j.JArr? || j.JObj?
    ensures r.Err? ==> r.error == TypeError
    ensures j.JStr? ==> r == Ok(j.s)
    ensures j.JNum? ==> r.Ok? && ParseInt(r.value) == Ok(j.n)
  {
    match j
    case JNull => Ok("None")
    case JBool(b) => Ok(if b then "True" else "False")
    case JNum(n) => ParseIntOfIntToString(n); Ok(IntToString(n))
    case JStr(s) => Ok(s)
    case _ => Err(TypeError)
  }

  /** One `urlretrieve(picUrl, folder + str(picture['id']) + '.jpg')`. */
  datatype Retrieval = Retrieval(url: string, path: string)

  /** The retrieval for one picture, or the error its lookup raises:
      subscripting anything but an object raises `TypeError`, a missing key
      `KeyError`, and `replace` on anything but text `AttributeError`. */
  function PictureRetrieval(picture: Json, folder: string, size: string): (r: Result<Retrieval>)
    ensures !picture.JObj? ==> r == Err(TypeError)
    ensures picture.JObj? && "url" !in picture.fields ==> r == Err(KeyError)
    ensures picture.JObj? && "url" in picture.fields && !picture.fields["url"].JStr? ==> r == Err(AttributeError)
    ensures picture.JObj? && "url" in picture.fields && picture.fields["url"].JStr? && "id" !in picture.fields ==>
      r == Err(KeyError)
    ensures r.Ok? <==>
      picture.JObj? && "url" in picture.fields && picture.fields["url"].JStr? && "id" in picture.fields
      && Str(picture.fields["id"]).Ok?
    ensures r.Ok? ==>
      && r.value.url == PhotoUrl(picture.fields["url"].s, size)
      && r.value.path == folder + Str(picture.fields["id"]).value + ".jpg"
  {
    if !picture.JObj? then Err(TypeError)
    else if "url" !in picture.fields then Err(KeyError)
    else if !picture.fields["url"].JStr? then Err(AttributeError)
    else
      var picUrl := PhotoUrl(picture.fields["url"].s, size);
      if "id" !in picture.fields then Err(KeyError)
      else
        var id :- Str(picture.fields["id"]);
        Ok(Retrieval(picUrl, folder + id + ".jpg"))
  }

  /** The retrievals for the pictures of one observation. */
  function PhotoRetrievals(photos: seq<Json>, folder: string, size: string): Result<seq<Retrieval>> {
    if photos == [] then Ok([])
    else
      var prev :- PhotoRetrievals(photos[..|photos| - 1], folder, size);
      var last :- PictureRetrieval(photos[|photos| - 1], folder, size);
      Ok(prev + [last])
  }

  /** What `for picture in obs['photos']` walks over. A list gives its
      items and text its characters. An object gives its keys, which are
      text, so a non-empty one fails at the first `picture['url']` with
      `TypeError` whatever the order of its keys; that error is returned
      here directly. Any other value is not iterable. */
  function Photos(obs: Record): (r: Result<seq<Json>>)
    ensures "photos" !in obs ==> r == Err(KeyError)
    ensures "photos" in obs && obs["photos"].JArr? ==> r == Ok(obs["photos"].items)
    ensures "photos" in obs && (obs["photos"] == JStr("") || obs["photos"] == JObj(map[])) ==> r == Ok([])
    ensures "photos" in obs && obs["photos"].JStr? ==> r.Ok? && |r.value| == |obs["photos"].s|
    ensures r.Err? ==> r.error == KeyError || r.error == TypeError
  {
    if "photos" !in obs then Err(KeyError)
    else match obs["photos"]
      case JArr(items) => Ok(items)
      case JStr(text) =>
        var chars := seq(|text|, i requires 0 <= i < |text| => JStr([text[i]]));
        assert text == [] ==> chars == [];
        Ok(chars)
      case JObj(fields) => if fields == map[] then Ok([]) else Err(TypeError)
      case _ => Err(TypeError)
  }

  /** Every retrieval of `download(folder, size)`, in order. */
  function Retrievals(data: seq<Record>, folder: string, size: string): Result<seq<Retrieval>> {
    if data == [] then Ok([])
    else
      var prev :- Retrievals(data[..|data| - 1], folder, size);
      var photos :- Photos(data[|data| - 1]);
      var these :- PhotoRetrievals(photos, folder, size);
      Ok(prev + these)
  }

  /** An observation whose `photos` is an empty list, text or object has
      nothing to download, and the loop goes on with the next one. */
  lemma NoPhotos(data: seq<Record>, obs: Record, folder: string, size: string)
    requires "photos" in obs
    requires obs["photos"] == JArr([]) || obs["photos"] == JStr("") || obs["photos"] == JObj(map[])
    ensures Retrievals(data + [obs], folder, size) == Retrievals(data, folder, size)
  {
    assert (data + [obs])[..|data|] == data;
    var r := Retrievals(data, folder, size);
    if r.Ok? {
      assert r.value + [] == r.value;
    }
  }

  /** Photos given as non-empty text are walked character by character, and
      the first character's `['url']` raises `TypeError`. */
  lemma {:induction false} TextPhotosFail(obs: Record, folder: string, size: string)
    requires "photos" in obs && obs["photos"].JStr? && obs["photos"].s != []
    ensures PhotoRetrievals(Photos(obs).value, folder, size) == Err(TypeError)
  {
    var ps := Photos(obs).value;
    assert ps[0] == JStr([obs["photos"].s[0]]);
    assert ps[..1][..0] == [];
    assert PhotoRetrievals(ps[..1], folder, size) == Err(TypeError);
    PhotoRetrievalsErr(ps, 1, folder, size, TypeError);
  }

  /** The retrievals of one observation are those of its pictures, one each,
      in order. */
  lemma {:induction false} PhotoRetrievalsEach(photos: seq<Json>, folder: string, size: string)
    requires PhotoRetrievals(photos, folder, size).Ok?
    ensures var r := PhotoRetrievals(photos, folder, size).value;
      && |r| == |photos|
      && forall k :: 0 <= k < |photos| ==> PictureRetrieval(photos[k], folder, size) == Ok(r[k])
  {
    if photos != [] {
      var n := |photos| - 1;
      PhotoRetrievalsEach(photos[..n], folder, size);
      var r := PhotoRetrievals(photos, folder, size).value;
      var prev := PhotoRetrievals(photos[..n], folder, size).value;
      assert r == prev + [PictureRetrieval(photos[n], folder, size).value];
      forall k | 0 <= k < |photos|
        ensures PictureRetrieval(photos[k], folder, size) == Ok(r[k])
      {
        if k < n {
          assert photos[..n][k] == photos[k];
        }
      }
    }
  }

  lemma PhotoRetrievalsSnoc(photos: seq<Json>, k: nat, folder: string, size: string)
    requires k < |photos|
    ensures PhotoRetrievals(photos[..k + 1], folder, size)
      == (var prev :- PhotoRetrievals(photos[..k], folder, size);
          var last :- PictureRetrieval(photos[k], folder, size);
          Ok(prev + [last]))
  {
    assert photos[..k + 1][..k] == photos[..k];
  }

  lemma RetrievalsSnoc(data: seq<Record>, k: nat, folder: string, size: string)
    requires k < |data|
    ensures Retrievals(data[..k + 1], folder, size)
      == (var prev :- Retrievals(data[..k], folder, size);
          var photos :- Photos(data[k]);
          var these :- PhotoRetrievals(photos, folder, size);
          Ok(prev + these))
  {
    assert data[..k + 1][..k] == data[..k];
  }

  /** Once an observation fails, so does every longer prefix of the data. */
  lemma {:induction false} RetrievalsErr(data: seq<Record>, k: nat, folder: string, size: string, e: Error)
    requires k <= |data| && Retrievals(data[..k], folder, size) == Err(e)
    ensures Retrievals(data, folder, size) == Err(e)
    decreases |data| - k
  {
    if k == |data| {
      assert data[..k] == data;
    } else {
      RetrievalsSnoc(data, k, folder, size);
      RetrievalsErr(data, k + 1, folder, size, e);
    }
  }

  /** Once a picture fails, so does every longer prefix of the photos. */
  lemma {:induction false} PhotoRetrievalsErr(photos: seq<Json>, m: nat, folder: string, size: string, e: Error)
    requires m <= |photos| && PhotoRetrievals(photos[..m], folder, size) == Err(e)
    ensures PhotoRetrievals(photos, folder, size) == Err(e)
    decreases |photos| - m
  {
    if m == |photos| {
      assert photos[..m] == photos;
    } else {
      PhotoRetrievalsSnoc(photos, m, folder, size);
      PhotoRetrievalsErr(photos, m + 1, folder, size, e);
    }
  }

  /** The retrievals one observation's pictures perform before the first
      that fails: `urlretrieve` has already run for every earlier picture. */
  function PhotoPerformed(photos: seq<Json>, folder: string, size: string): seq<Retrieval> {
    if photos == [] then []
    else
      var n := |photos| - 1;
      var prev := PhotoPerformed(photos[..n], folder, size);
      if PhotoRetrievals(photos[..n], folder, size).Err? then prev
      else match PictureRetrieval(photos[n], folder, size)
        case Ok(one) => prev + [one]
        case Err(_) => prev
  }

  /** The retrievals `download` performs before the first error, or all of
      them when there is none. */
  function Performed(data: seq<Record>, folder: string, size: string): seq<Retrieval> {
    if data == [] then []
    else
      var n := |data| - 1;
      var prev := Performed(data[..n], folder, size);
      if Retrievals(data[..n], folder, size).Err? then prev
      else match Photos(data[n])
        case Ok(photos) => prev + PhotoPerformed(photos, folder, size)
        case Err(_) => prev
  }

  /** Without an error, every retrieval of the pictures is performed. */
  lemma {:induction false} PhotoPerformedOk(photos: seq<Json>, folder: string, size: string)
    requires PhotoRetrievals(photos, folder, size).Ok?
    ensures PhotoPerformed(photos, folder, size) == PhotoRetrievals(photos, folder, size).value
  {
    if photos != [] {
      PhotoPerformedOk(photos[..|photos| - 1], folder, size);
    }
  }

  /** Without an error, `download` performs every retrieval of `Retrievals`. */
  lemma {:induction false} PerformedOk(data: seq<Record>, folder: string, size: string)
    requires Retrievals(data, folder, size).Ok?
    ensures Performed(data, folder, size) == Retrievals(data, folder, size).value
  {
    if data != [] {
      var n := |data| - 1;
      PerformedOk(data[..n], folder, size);
      PhotoPerformedOk(Photos(data[n]).value, folder, size);
    }
  }

  /** After the first failing picture nothing more is performed. */
  lemma {:induction false} PhotoPerformedStops(photos: seq<Json>, m: nat, folder: string, size: string)
    requires m <= |photos| && PhotoRetrievals(photos[..m], folder, size).Err?
    ensures PhotoPerformed(photos, folder, size) == PhotoPerformed(photos[..m], folder, size)
    decreases |photos| - m
  {
    if m == |photos| {
      assert photos[..m] == photos;
    } else {
      assert photos[..m + 1][..m] == photos[..m];
      PhotoRetrievalsSnoc(photos, m, folder, size);
      PhotoPerformedStops(photos, m + 1, folder, size);
    }
  }

  /** After the first failing observation nothing more is performed. */
  lemma {:induction false} PerformedStops(data: seq<Record>, k: nat, folder: string, size: string)
    requires k <= |data| && Retrievals(data[..k], folder, size).Err?
    ensures Performed(data, folder, size) == Performed(data[..k], folder, size)
    decreases |data| - k
  {
    if k == |data| {
      assert data[..k] == data;
    } else {
      assert data[..k + 1][..k] == data[..k];
      RetrievalsSnoc(data, k, folder, size);
      PerformedStops(data, k + 1, folder, size);
    }
  }

  /** When picture `m` of observation `k` is the first to fail, `download`
      raises its error, and the retrievals already performed are those of the
      earlier observations, then those of the earlier pictures of
      observation `k`. */
  lemma PerformedAtFailure(data: seq<Record>, k: nat, photos: seq<Json>, m: nat, folder: string, size: string)
    requires k < |data| && Retrievals(data[..k], folder, size).Ok? && Photos(data[k]) == Ok(photos)
    requires m < |photos| && PhotoRetrievals(photos[..m], folder, size).Ok?
    requires PictureRetrieval(photos[m], folder, size).Err?
    ensures Retrievals(data, folder, size) == Err(PictureRetrieval(photos[m], folder, size).error)
    ensures Performed(data, folder, size)
      == Retrievals(data[..k], folder, size).value + PhotoRetrievals(photos[..m], folder, size).value
  {
    var e := PictureRetrieval(photos[m], folder, size).error;
    PhotoRetrievalsSnoc(photos, m, folder, size);
    PhotoRetrievalsErr(photos, m + 1, folder, size, e);
    RetrievalsSnoc(data, k, folder, size);
    RetrievalsErr(data, k + 1, folder, size, e);
    assert photos[..m + 1][..m] == photos[..m];
    PhotoPerformedOk(photos[..m], folder, size);
    PhotoPerformedStops(photos, m + 1, folder, size);
    assert data[..k + 1][..k] == data[..k];
    PerformedOk(data[..k], folder, size);
    PerformedStops(data, k + 1, folder, size);
  }

  /** `download(folder, size)`: the nested loop over observations and their
      photos. Instead of calling `urlretrieve` it collects the retrievals it
      performs, in order; on an error, those performed before it. */
  method Download(data: seq<Record>, folder: string, size: string)
    returns (r: Result<seq<Retrieval>>, performed: seq<Retrieval>)
    ensures r == Retrievals(data, folder, size)
    ensures performed == Performed(data, folder, size)
    ensures r.Ok? ==> performed == r.value
  {
    var done: seq<Retrieval> := [];
    for k := 0 to |data|
      invariant Retrievals(data[..k], folder, size) == Ok(done)
      invariant Performed(data[..k], folder, size) == done
    {
      RetrievalsSnoc(data, k, folder, size);
      assert data[..k + 1][..k] == data[..k];
      var photos := Photos(data[k]);
      if photos.Err? {
        RetrievalsErr(data, k + 1, folder, size, photos.error);
        PerformedStops(data, k + 1, folder, size);
        return Err(photos.error), done;
      }
      var these: seq<Retrieval> := [];
      for m := 0 to |photos.value|
        invariant PhotoRetrievals(photos.value[..m], folder, size) == Ok(these)
        invariant PhotoPerformed(photos.value[..m], folder, size) == these
      {
        PhotoRetrievalsSnoc(photos.value, m, folder, size);
        assert photos.value[..m + 1][..m] == photos.value[..m];
        var one := PictureRetrieval(photos.value[m], folder, size);
        if one.Err? {
          PerformedAtFailure(data, k, photos.value, m, folder, size);
          return Err(one.error), done + these;
        }
        these := these + [one.value];
      }
      assert photos.value[..|photos.value|] == photos.value;
      done := done + these;
    }
    assert data[..|data|] == data;
    r, performed := Ok(done), done;
  }

  // ---------------------------------------------------------------------------
  // The object
  // ---------------------------------------------------------------------------

  /** An `INatObvs`: its query URL and the records fetched for it. */
  datatype INatObvs = INatObvs(url: string, data: seq<Record>)

  /** `INatObvs(url)`: the two checks, then `get_data()`. */
  method New(url: string, fetch: string -> Page) returns (r: Result<INatObvs>)
    ensures r.Err? <==> CheckUrl(url).Err? || GetDataSpec(url, fetch).Err?
    ensures r.Ok? ==> r.value == INatObvs(url, GetDataSpec(url, fetch).value)
    ensures CheckUrl(url).Err? ==> r == Err(CheckUrl(url).error)
    ensures CheckUrl(url).Ok? && GetDataSpec(url, fetch).Err? ==> r == Err(GetDataSpec(url, fetch).error)
  {
    var checked := CheckUrl(url);
    if checked.Err? {
      return Err(checked.error);
    }
    var data, _ := GetData(url, fetch);
    if data.Err? {
      return Err(data.error);
    }
    r := Ok(INatObvs(url, data.value));
  }
}
