/** `normalize_records` and the paging loop of `fetch_paginated`. The network is the
    parameter `fetch`: the decoded response for a URL, or the error `fetch_json` raises. */
module ApiIngestion {
  import opened Options
  import opened Seqs
  import opened Numbers
  import opened Dicts
  import opened FirstOccurrence
  import opened Json

  // ---------------------------------------------------------------------------
  // normalize_records

  /** `{k: record.get(k) for k in fields}`; a record that is not a dict has no `get`. */
  function Project(record: Json, fields: seq<string>): (r: Option<Json>)
    ensures r.Some? <==> record.Object?
  {
    match record
    case Object(d) => Some(Object(Assign([], fields, seq(|fields|, i requires 0 <= i < |fields| => GetOr(d, fields[i], Null)))))
    case _ => None
  }

  /** Every record projected, or `None` if one of them is not a dict. */
  function ProjectAll(records: seq<Json>, fields: seq<string>): (r: Option<seq<Json>>)
    ensures r.Some? <==> forall i :: 0 <= i < |records| ==> records[i].Object?
    ensures r.Some? ==> |r.value| == |records|
    ensures r.Some? ==> forall i :: 0 <= i < |records| ==> Some(r.value[i]) == Project(records[i], fields)
    decreases |records|
  {
    if records == [] then Some([])
    else
      match (Project(records[0], fields), ProjectAll(records[1..], fields))
      case (Some(p), Some(ps)) => Some([p] + ps)
      case _ => None
  }

  /** `normalize_records(records, fields)`; `None` is the `AttributeError` of a record
      that is not a dict. */
  function NormalizeRecords(records: seq<Json>, fields: Option<seq<string>>): (r: Option<seq<Json>>)
    ensures records == [] ==> r == Some([])
    ensures fields.None? || fields == Some([]) ==> r == Some(records)
  {
    if records == [] then Some([])
    else if fields.Some? && fields.value != [] then ProjectAll(records, fields.value)
    else Some(records)
  }

  /** With non-empty `fields`, each record becomes a dict keyed by exactly `fields`
      that holds the record's value for each field, or null when it has none. */
  lemma NormalizeProjects(records: seq<Json>, fields: seq<string>, i: nat)
    requires fields != [] && i < |records|
    requires forall j :: 0 <= j < |records| ==> records[j].Object?
    ensures var r := NormalizeRecords(records, Some(fields));
      && r.Some? && |r.value| == |records|
      && r.value[i].Object?
      && Keys(r.value[i].fields) == Distinct(fields)
      && Valid(r.value[i].fields)
      && forall k :: k in fields ==> Get(r.value[i].fields, k) == Some(GetOr(records[i].fields, k, Null))
  {
    var d := records[i].fields;
    var vs := seq(|fields|, j requires 0 <= j < |fields| => GetOr(d, fields[j], Null));
    AssignKeys(fields, vs);
    forall k | k in fields ensures Get(Assign([], fields, vs), k) == Some(GetOr(d, k, Null)) {
      var j := LastIndex(fields, k);
      AssignLastWins([], fields, vs, j);
    }
  }

  /** The last position of `k` in `ks`. */
  lemma LastIndex(ks: seq<string>, k: string) returns (j: nat)
    requires k in ks
    ensures j < |ks| && ks[j] == k
    ensures forall l :: j < l < |ks| ==> ks[l] != ks[j]
    decreases |ks|
  {
    if ks[|ks| - 1] == k {
      j := |ks| - 1;
    } else {
      var init := ks[..|ks| - 1];
      assert k in init by {
        var m :| 0 <= m < |ks| && ks[m] == k;
        assert init[m] == k;
      }
      j := LastIndex(init, k);
      assert ks[j] == init[j];
      forall l | j < l < |ks| ensures ks[l] != ks[j] {
        if l < |ks| - 1 {
          assert ks[l] == init[l];
        }
      }
    }
  }

  /** With non-empty `fields`, one record that is not a dict makes the call fail. */
  lemma NormalizeFails(records: seq<Json>, fields: seq<string>, i: nat)
    requires fields != [] && i < |records| && !records[i].Object?
    ensures NormalizeRecords(records, Some(fields)).None?
  {
  }

  // ---------------------------------------------------------------------------
  // fetch_paginated: URLs

  /** `"&" if "?" in base_url else "?"`. */
  function Separator(baseUrl: string): char {
    if '?' in baseUrl then '&' else '?'
  }

  /** `f"{base_url}{separator}{page_param}="`. */
  function UrlHead(baseUrl: string, pageParam: string): (h: string)
    ensures |h| > |baseUrl| && h[..|baseUrl|] == baseUrl
    ensures h[|baseUrl|] == Separator(baseUrl)
  {
    var h := baseUrl + ([Separator(baseUrl)] + pageParam + "=");
    SplitConcat(baseUrl, [Separator(baseUrl)] + pageParam + "=");
    h
  }

  /** `f"&{per_page_param}={per_page}"`. */
  function UrlTail(perPageParam: string, perPage: int): (t: string)
    ensures t != [] && t[0] == '&'
  {
    "&" + perPageParam + "=" + IntToString(perPage)
  }

  /** `f"{base_url}{separator}{page_param}={page}&{per_page_param}={per_page}"`. */
  function PageUrl(baseUrl: string, pageParam: string, perPageParam: string, perPage: int, page: nat): (url: string)
    ensures |url| > |baseUrl| && url[..|baseUrl|] == baseUrl
    ensures url[|baseUrl|] == '&' <==> '?' in baseUrl
  {
    var h := UrlHead(baseUrl, pageParam);
    var url := h + (NatToString(page) + UrlTail(perPageParam, perPage));
    SplitConcat(h, NatToString(page) + UrlTail(perPageParam, perPage));
    assert url[..|baseUrl|] == h[..|baseUrl|];
    url
  }

  /** A run of digits followed by a non-digit is as long as the run. */
  lemma DigitRunLength(a: string, x: string)
    requires AllDigits(a) && x != [] && !IsDigit(x[0])
    ensures DigitPrefix(a + x) == |a|
  {
    var s := a + x;
    assert forall i :: 0 <= i < |a| ==> s[i] == a[i];
    assert s[|a|] == x[0];
  }

  /** Two digit strings followed by the same non-digit are equal when the whole strings are. */
  lemma DigitsBeforeMark(a: string, x: string, b: string, y: string)
    requires AllDigits(a) && AllDigits(b)
    requires x != [] && !IsDigit(x[0]) && y != [] && !IsDigit(y[0])
    requires a + x == b + y
    ensures a == b
  {
    DigitRunLength(a, x);
    DigitRunLength(b, y);
    SplitConcat(a, x);
    SplitConcat(b, y);
  }

  /** Different pages are requested under different URLs. */
  lemma PageUrlInjective(baseUrl: string, pageParam: string, perPageParam: string, perPage: int, p: nat, q: nat)
    requires PageUrl(baseUrl, pageParam, perPageParam, perPage, p) == PageUrl(baseUrl, pageParam, perPageParam, perPage, q)
    ensures p == q
  {
    var h := UrlHead(baseUrl, pageParam);
    var t := UrlTail(perPageParam, perPage);
    var sp, sq := NatToString(p), NatToString(q);
    SplitConcat(h, sp + t);
    SplitConcat(h, sq + t);
    DigitsBeforeMark(sp, t, sq, t);
    DigitsValueOfNatToString(p);
    DigitsValueOfNatToString(q);
  }

  // ---------------------------------------------------------------------------
  // fetch_paginated: one page

  /** What the loop does with one response: fail, stop, or extend by some items. */
  datatype Step = Fail(error: string) | Stop | Continue(items: seq<Json>)

  /** `data.get("results", data.get("items", data.get("data", [])))`: the first of these
      keys that is present wins, whatever its value. */
  function PageItems(d: Dict<Json>): (items: Json)
    ensures "results" in Keys(d) ==> Some(items) == Get(d, "results")
    ensures "results" !in Keys(d) && "items" in Keys(d) ==> Some(items) == Get(d, "items")
    ensures "results" !in Keys(d) && "items" !in Keys(d) ==> items == GetOr(d, "data", Array([]))
  {
    GetOr(d, "results", GetOr(d, "items", GetOr(d, "data", Array([]))))
  }

  /** The body of the loop for one response. */
  function PageStep(response: Result<Json, string>): (s: Step)
    ensures s.Continue? ==> s.items != []
  {
    match response
    case Err(e) => Fail(e)
    case Ok(Array(xs)) => if xs == [] then Stop else Continue(xs)
    case Ok(Object(d)) =>
      var items := PageItems(d);
      if !Truthy(items) then Stop
      else
        (match Iterate(items)
         case None => Fail("TypeError")
         case Some(xs) => TruthyIterateNonEmpty(items); Continue(xs))
    case Ok(_) => Stop
  }

  lemma TruthyIterateNonEmpty(v: Json)
    requires Truthy(v) && Iterate(v).Some?
    ensures Iterate(v).value != []
  {
    if v.Object? {
      assert |Keys(v.fields)| == |v.fields|;
    }
  }

  /** A wrapped page whose `results` is present but empty ends the loop, whatever
      `items` holds. */
  lemma EmptyResultsStops(d: Dict<Json>)
    requires Get(d, "results") == Some(Array([]))
    ensures PageStep(Ok(Object(d))) == Stop
  {
  }

  // ---------------------------------------------------------------------------
  // fetch_paginated: the loop

  /** The responses to pages 1 to `max_pages`, as the server would give them. */
  function Responses(fetch: string -> Result<Json, string>, baseUrl: string, pageParam: string,
                     perPageParam: string, perPage: int, maxPages: int): (rs: seq<Result<Json, string>>)
    ensures |rs| == if maxPages > 0 then maxPages else 0
  {
    seq(if maxPages > 0 then maxPages else 0, i requires 0 <= i =>
      fetch(PageUrl(baseUrl, pageParam, perPageParam, perPage, i + 1)))
  }

  /** Prepends items already collected to the outcome of the remaining pages. */
  function Prepend(xs: seq<Json>, r: Result<seq<Json>, string>): Result<seq<Json>, string> {
    match r
    case Ok(ys) => Ok(xs + ys)
    case Err(e) => Err(e)
  }

  /** The value `fetch_paginated` returns (or the error it raises) for these responses. */
  function Outcome(pages: seq<Result<Json, string>>): Result<seq<Json>, string>
    decreases |pages|
  {
    if pages == [] then Ok([])
    else
      match PageStep(pages[0])
      case Fail(e) => Err(e)
      case Stop => Ok([])
      case Continue(xs) => Prepend(xs, Outcome(pages[1..]))
  }

  /** How many pages the loop requests. */
  function Consumed(pages: seq<Result<Json, string>>): (n: nat)
    ensures n <= |pages|
    decreases |pages|
  {
    if pages == [] then 0
    else if PageStep(pages[0]).Continue? then 1 + Consumed(pages[1..])
    else 1
  }

  /** The position of the first response that does not continue the loop. */
  function FirstStop(pages: seq<Result<Json, string>>): (k: nat)
    ensures k <= |pages|
    decreases |pages|
  {
    if pages == [] || !PageStep(pages[0]).Continue? then 0 else 1 + FirstStop(pages[1..])
  }

  /** The item list of each response (empty for one that does not continue). */
  function ItemLists(pages: seq<Result<Json, string>>): (l: seq<seq<Json>>)
    ensures |l| == |pages|
  {
    seq(|pages|, i requires 0 <= i < |pages| => var s := PageStep(pages[i]); if s.Continue? then s.items else [])
  }

  /** The loop's result, stated by position: the items of the pages before the first
      stopping response, concatenated in page order; an error if that response is a
      failure. One page more than those that continue is requested, unless all of
      `max_pages` continue, and the pages before the first stop all continue. */
  lemma {:induction false} OutcomeByFirstStop(pages: seq<Result<Json, string>>)
    ensures var k := FirstStop(pages);
      Outcome(pages) == if k < |pages| && PageStep(pages[k]).Fail? then Err(PageStep(pages[k]).error)
                        else Ok(Flatten(ItemLists(pages)[..k]))
    ensures Consumed(pages) == if FirstStop(pages) < |pages| then FirstStop(pages) + 1 else FirstStop(pages)
    ensures forall i :: 0 <= i < FirstStop(pages) ==> PageStep(pages[i]).Continue?
    decreases |pages|
  {
    if pages != [] && PageStep(pages[0]).Continue? {
      var rest := pages[1..];
      OutcomeByFirstStop(rest);
      var k := FirstStop(pages);
      var l := ItemLists(pages);
      TakeTail(l, k);
      assert l[1..] == ItemLists(rest);
      forall i | 0 <= i < k ensures PageStep(pages[i]).Continue? {
        if i > 0 {
          assert pages[i] == rest[i - 1];
        }
      }
      if k < |pages| {
        assert pages[k] == rest[k - 1];
      }
    }
  }

  /** The loop requests at most `max_pages` pages. */
  lemma ConsumedBound(fetch: string -> Result<Json, string>, baseUrl: string, pageParam: string,
                      perPageParam: string, perPage: int, maxPages: int)
    ensures Consumed(Responses(fetch, baseUrl, pageParam, perPageParam, perPage, maxPages)) <= if maxPages > 0 then maxPages else 0
  {
  }

  /** The URLs of pages 1 to `n`, in order. */
  function PageUrls(baseUrl: string, pageParam: string, perPageParam: string, perPage: int, n: nat): (urls: seq<string>)
    ensures |urls| == n
    ensures forall j :: 0 <= j < n ==> urls[j] == PageUrl(baseUrl, pageParam, perPageParam, perPage, j + 1)
  {
    seq(n, j requires 0 <= j => PageUrl(baseUrl, pageParam, perPageParam, perPage, j + 1))
  }

  lemma PageUrlsStep(baseUrl: string, pageParam: string, perPageParam: string, perPage: int, n: nat)
    ensures PageUrls(baseUrl, pageParam, perPageParam, perPage, n + 1)
         == PageUrls(baseUrl, pageParam, perPageParam, perPage, n) + [PageUrl(baseUrl, pageParam, perPageParam, perPage, n + 1)]
  {
  }

  /** `fetch_paginated(base_url, page_param, per_page_param, per_page, max_pages)`. Besides
      the items it returns the URLs it requested, in order. */
  method FetchPaginated(fetch: string -> Result<Json, string>, baseUrl: string, pageParam: string,
                        perPageParam: string, perPage: int, maxPages: int)
    returns (outcome: Result<seq<Json>, string>, requested: seq<string>)
    ensures outcome == Outcome(Responses(fetch, baseUrl, pageParam, perPageParam, perPage, maxPages))
    ensures |requested| == Consumed(Responses(fetch, baseUrl, pageParam, perPageParam, perPage, maxPages))
    ensures requested == PageUrls(baseUrl, pageParam, perPageParam, perPage, |requested|)
  {
    ghost var pages := Responses(fetch, baseUrl, pageParam, perPageParam, perPage, maxPages);
    var allItems: seq<Json> := [];
    requested := [];
    var page := 1;
    DropAll(pages);
    if Outcome(pages).Ok? {
      EmptyAppend(Outcome(pages).value);
    }
    while page <= maxPages
      invariant 1 <= page && page - 1 <= |pages|
      invariant |requested| == page - 1
      invariant requested == PageUrls(baseUrl, pageParam, perPageParam, perPage, page - 1)
      invariant Outcome(pages) == Prepend(allItems, Outcome(pages[page - 1..]))
      invariant Consumed(pages) == page - 1 + Consumed(pages[page - 1..])
      decreases maxPages - page
    {
      var url := PageUrl(baseUrl, pageParam, perPageParam, perPage, page);
      PageUrlsStep(baseUrl, pageParam, perPageParam, perPage, page - 1);
      requested := requested + [url];
      var data := fetch(url);
      assert data == pages[page - 1];
      OutcomeStep(pages, page - 1);
      var step := PageStep(data);
      match step
      case Fail(e) =>
        outcome := Err(e);
        return;
      case Stop =>
        AppendEmpty(allItems);
        outcome := Ok(allItems);
        return;
      case Continue(xs) =>
        PrependPrepend(allItems, xs, Outcome(pages[page..]));
        allItems := allItems + xs;
        page := page + 1;
    }
    DropAll(pages);
    AppendEmpty(allItems);
    outcome := Ok(allItems);
  }

  /** One turn of the loop, on the responses from position `i` on. */
  lemma OutcomeStep(pages: seq<Result<Json, string>>, i: nat)
    requires i < |pages|
    ensures Outcome(pages[i..]) == match PageStep(pages[i])
      case Fail(e) => Err(e)
      case Stop => Ok([])
      case Continue(xs) => Prepend(xs, Outcome(pages[i + 1..]))
    ensures Consumed(pages[i..]) == if PageStep(pages[i]).Continue? then 1 + Consumed(pages[i + 1..]) else 1
  {
    DropDrop(pages, i);
  }

  lemma PrependPrepend(a: seq<Json>, b: seq<Json>, r: Result<seq<Json>, string>)
    ensures Prepend(a, Prepend(b, r)) == Prepend(a + b, r)
  {
    if r.Ok? {
      assert a + (b + r.value) == (a + b) + r.value;
    }
  }
}
