/**
 * The section crawl: a breadth-first walk from the start URL of a category,
 * bounded to 100 records, that records the title and first heading of every
 * page it can fetch and follows only links on the base host whose path starts
 * with the category path.
 *
 * `Step` and `Run` give the crawl as a state machine; `AnalyzeAndCrawl` is the
 * loop itself, proved to compute `Run`'s result.
 */
module Crawl {
  import opened Wrappers
  import opened Text
  import opened Web

  /** The crawl stops once it holds this many records. */
  const MaxPages := 100
  /** The main heading is cut to this many characters. */
  const HeadingLimit := 50
  const NoTitle := "No Title"
  const NoHeading := "N/A"

  /** One row of the crawl's result. */
  datatype PageRecord = PageRecord(url: string, title: string, mainHeading: string, status: int)

  /** A page whose title element has no single string: stripping it raises an
      error that is not a request exception, so the whole crawl raises. */
  predicate Raises(response: Response) {
    response.Http? && response.status == 200 && response.page.title.TitleWithoutString?
  }

  /** The main heading of a page: its first h1's text cut to 50 characters, or "N/A". */
  function HeadingOf(page: Page): (h: string)
    ensures |h| <= HeadingLimit
    ensures page.h1.None? ==> h == NoHeading
    ensures page.h1.Some? ==> StartsWith(page.h1.value, h)
    ensures page.h1.Some? && |page.h1.value| > HeadingLimit ==> |h| == HeadingLimit
    ensures page.h1.Some? && |page.h1.value| <= HeadingLimit ==> h == page.h1.value
  {
    match page.h1
    case None => NoHeading
    case Some(text) => Take(text, HeadingLimit)
  }

  /** The record a dequeued URL yields: none for a raised request, a status other
      than 200 or a title that raises. */
  function RecordOf(url: string, response: Response): (r: Option<PageRecord>)
    ensures r.Some? <==> response.Http? && response.status == 200 && !Raises(response)
    ensures r.Some? ==> r.value.url == url && r.value.status == 200
    ensures r.Some? ==> r.value.mainHeading == HeadingOf(response.page)
    ensures r.Some? && response.page.title.NoTitleElement? ==> r.value.title == NoTitle
    ensures r.Some? && response.page.title.TitleText? ==>
      r.value.title == Strip(response.page.title.text, PyWhitespace)
  {
    match response
    case NetworkError => None
    case Http(status, page) =>
      if status != 200 then None
      else match page.title
        case TitleWithoutString => None
        case NoTitleElement => Some(PageRecord(url, NoTitle, HeadingOf(page), status))
        case TitleText(text) => Some(PageRecord(url, Strip(text, PyWhitespace), HeadingOf(page), status))
  }

  /** The crawl's state between two iterations. The source keeps the queue, the
      visited set and the records; `admitted` is the model's log of every URL
      admitted so far, in admission order, the start URL first. */
  datatype State = State(queue: seq<string>, visited: set<string>, records: seq<PageRecord>, admitted: seq<Url>)

  function Init(start: Url): State {
    State([start.full], {start.full}, [], [start])
  }

  /** The admission test on a link's host and path: the base host, and the
      category path as a literal string prefix. */
  predicate Admissible(link: Url, base: Url, category: string) {
    link.host == base.host && StartsWith(link.path, category)
  }

  /** One link of a fetched page: queued and marked visited when it is new and admissible. */
  function Admit(st: State, link: Url, base: Url, category: string): State {
    if link.full !in st.visited && Admissible(link, base, category) then
      st.(visited := st.visited + {link.full}, queue := st.queue + [link.full], admitted := st.admitted + [link])
    else
      st
  }

  /** All links of a fetched page, in document order. */
  function AdmitAll(st: State, links: seq<Url>, base: Url, category: string): (r: State)
    ensures r.records == st.records
    ensures st.visited <= r.visited
    ensures st.queue <= r.queue && st.admitted <= r.admitted
    ensures |r.queue| - |st.queue| == |r.admitted| - |st.admitted|
    ensures r.visited == st.visited + AdmissibleFulls(links, base, category)
    decreases |links|
  {
    if links == [] then st
    else
      var init := links[..|links| - 1];
      var last := links[|links| - 1];
      AdmissibleFullsSnoc(init, last, base, category);
      assert links == init + [last];
      Admit(AdmitAll(st, init, base, category), last, base, category)
  }

  /** The full URLs of the admissible links among `links`. */
  function AdmissibleFulls(links: seq<Url>, base: Url, category: string): set<string> {
    set l | l in links && Admissible(l, base, category) :: l.full
  }

  lemma AdmissibleFullsSnoc(links: seq<Url>, link: Url, base: Url, category: string)
    ensures AdmissibleFulls(links + [link], base, category) ==
      AdmissibleFulls(links, base, category) + (if Admissible(link, base, category) then {link.full} else {})
  {
    var both := links + [link];
    forall u | u in AdmissibleFulls(both, base, category)
      ensures u in AdmissibleFulls(links, base, category) || (Admissible(link, base, category) && u == link.full)
    {
      var l :| l in both && Admissible(l, base, category) && l.full == u;
      if l != link {
        assert l in links;
      }
    }
  }

  /** Every admissible link on a fetched page ends up visited: the crawl follows
      each new in-scope link. */
  lemma AdmitAllFollowsAdmissible(st: State, links: seq<Url>, base: Url, category: string)
    ensures forall i :: 0 <= i < |links| && Admissible(links[i], base, category) ==>
      links[i].full in AdmitAll(st, links, base, category).visited
  {
    forall i | 0 <= i < |links| && Admissible(links[i], base, category)
      ensures links[i].full in AdmitAll(st, links, base, category).visited
    {
      assert links[i].full in AdmissibleFulls(links, base, category);
    }
  }

  /** The records a queued URL adds: one, or none. */
  function RecordsOf(url: string, fetch: string -> Response): seq<PageRecord> {
    match RecordOf(url, fetch(url))
    case Some(record) => [record]
    case None => []
  }

  /** One iteration of the crawl loop: dequeue the front URL and fetch it; a failed
      fetch adds nothing; a fetched page adds its record and admits its links;
      `None` when the page's title raises. */
  function Step(st: State, fetch: string -> Response, base: Url, category: string): (r: Option<State>)
    requires st.queue != []
    ensures r.None? <==> Raises(fetch(st.queue[0]))
    ensures r.Some? ==> r.value.records == st.records + RecordsOf(st.queue[0], fetch)
    ensures r.Some? && RecordOf(st.queue[0], fetch(st.queue[0])).None? ==>
      r.value == st.(queue := st.queue[1..])
    ensures r.Some? ==> st.visited <= r.value.visited && st.admitted <= r.value.admitted
    ensures r.Some? ==> st.queue[1..] <= r.value.queue
    ensures r.Some? ==> |r.value.queue| - (|st.queue| - 1) == |r.value.admitted| - |st.admitted|
  {
    var url := st.queue[0];
    var popped := st.(queue := st.queue[1..]);
    var response := fetch(url);
    if response.NetworkError? || response.status != 200 then Some(popped)
    else if response.page.title.TitleWithoutString? then None
    else
      var record := RecordOf(url, response).value;
      Some(AdmitAll(popped.(records := popped.records + [record]), response.page.links, base, category))
  }

  /** The loop run to its end: until the queue is empty or 100 records are held;
      `None` when a page raises. */
  function Run(st: State, fetch: string -> Response, base: Url, category: string): (r: Option<State>)
    ensures r.Some? ==> r.value.queue == [] || |r.value.records| >= MaxPages
    decreases MaxPages - |st.records|, |st.queue|
  {
    if st.queue == [] || |st.records| >= MaxPages then Some(st)
    else
      match Step(st, fetch, base, category)
      case None => None
      case Some(next) => Run(next, fetch, base, category)
  }

  /** The result of `analyze_and_crawl`: the records, or `None` when it raises. */
  function CrawlRecords(fetch: string -> Response, base: Url, category: string, start: Url): Option<seq<PageRecord>> {
    match Run(Init(start), fetch, base, category)
    case None => None
    case Some(final) => Some(final.records)
  }

  // ---------------------------------------------------------------------------
  // Invariants of the crawl

  function Fulls(us: seq<Url>): (r: seq<string>)
    ensures |r| == |us|
    ensures forall i :: 0 <= i < |us| ==> r[i] == us[i].full
  {
    seq(|us|, i requires 0 <= i < |us| => us[i].full)
  }

  predicate Distinct(s: seq<string>) {
    forall i, j :: 0 <= i < j < |s| ==> s[i] != s[j]
  }

  /** The records that fetching `urls` in this order yields. */
  function RecordsFor(urls: seq<string>, fetch: string -> Response): seq<PageRecord>
    decreases |urls|
  {
    if urls == [] then []
    else RecordsFor(urls[..|urls| - 1], fetch) + RecordsOf(urls[|urls| - 1], fetch)
  }

  /** The queue and visited set as the admission log explains them:
      - the start URL was admitted first, every later URL passed the admission test;
      - no URL was admitted twice, and the visited set is exactly what was admitted;
      - the queue is the tail of the admission log: URLs leave it in the order
        they were admitted (first in, first out). */
  ghost predicate QueueInv(st: State, start: Url, base: Url, category: string) {
    && |st.admitted| >= 1 && st.admitted[0] == start
    && (forall i :: 1 <= i < |st.admitted| ==> Admissible(st.admitted[i], base, category))
    && Distinct(Fulls(st.admitted))
    && (forall u :: u in st.visited <==> u in Fulls(st.admitted))
    && |st.queue| <= |st.admitted|
    && st.queue == Fulls(st.admitted)[|st.admitted| - |st.queue|..]
  }

  /** The URLs already dequeued, in dequeue order. */
  function Processed(st: State): seq<string>
    requires |st.queue| <= |st.admitted|
  {
    Fulls(st.admitted)[..|st.admitted| - |st.queue|]
  }

  /** The crawl's invariant: the records are those of the dequeued URLs, in the
      order they were dequeued, and there are at most 100 of them. */
  ghost predicate Inv(st: State, start: Url, base: Url, category: string, fetch: string -> Response) {
    && QueueInv(st, start, base, category)
    && st.records == RecordsFor(Processed(st), fetch)
    && |st.records| <= MaxPages
  }

  lemma InitInv(start: Url, base: Url, category: string, fetch: string -> Response)
    ensures Inv(Init(start), start, base, category, fetch)
  {
    var st := Init(start);
    assert Fulls(st.admitted) == [start.full];
    assert Processed(st) == [];
  }

  /** Admitting one link keeps the queue invariant and does not touch what was dequeued. */
  lemma AdmitKeepsQueueInv(st: State, link: Url, start: Url, base: Url, category: string)
    requires QueueInv(st, start, base, category)
    ensures QueueInv(Admit(st, link, base, category), start, base, category)
    ensures Processed(Admit(st, link, base, category)) == Processed(st)
  {
    var r := Admit(st, link, base, category);
    if r != st {
      var f := Fulls(st.admitted);
      var k := |st.admitted| - |st.queue|;
      assert Fulls(r.admitted) == f + [link.full];
      assert link.full !in f;
      assert (f + [link.full])[k..] == f[k..] + [link.full];
      assert (f + [link.full])[..k] == f[..k];
    }
  }

  lemma {:induction false} AdmitAllKeepsQueueInv(st: State, links: seq<Url>, start: Url, base: Url, category: string)
    requires QueueInv(st, start, base, category)
    ensures QueueInv(AdmitAll(st, links, base, category), start, base, category)
    ensures Processed(AdmitAll(st, links, base, category)) == Processed(st)
    decreases |links|
  {
    if links != [] {
      var prev := AdmitAll(st, links[..|links| - 1], base, category);
      AdmitAllKeepsQueueInv(st, links[..|links| - 1], start, base, category);
      AdmitKeepsQueueInv(prev, links[|links| - 1], start, base, category);
    }
  }

  /** Every iteration keeps the invariant. */
  lemma StepKeepsInv(st: State, start: Url, base: Url, category: string, fetch: string -> Response)
    requires Inv(st, start, base, category, fetch)
    requires st.queue != [] && |st.records| < MaxPages
    ensures Step(st, fetch, base, category).Some? ==>
      Inv(Step(st, fetch, base, category).value, start, base, category, fetch)
  {
    var url := st.queue[0];
    var popped := st.(queue := st.queue[1..]);
    var f := Fulls(st.admitted);
    var k := |st.admitted| - |st.queue|;
    assert url == f[k];
    assert popped.queue == f[k + 1..];
    assert f[..k + 1][..k] == f[..k];
    assert Processed(popped) == f[..k + 1];
    assert RecordsFor(Processed(popped), fetch) == st.records + RecordsOf(url, fetch);
    var response := fetch(url);
    if response.Http? && response.status == 200 && !Raises(response) {
      var mid := popped.(records := popped.records + [RecordOf(url, response).value]);
      assert QueueInv(mid, start, base, category);
      AdmitAllKeepsQueueInv(mid, response.page.links, start, base, category);
    }
  }

  /** The invariant holds when the loop ends; the visited set and the admission
      log only grow on the way. */
  lemma {:induction false} RunKeepsInv(st: State, start: Url, base: Url, category: string, fetch: string -> Response)
    requires Inv(st, start, base, category, fetch)
    ensures var r := Run(st, fetch, base, category);
      r.Some? ==> Inv(r.value, start, base, category, fetch) && st.visited <= r.value.visited && st.admitted <= r.value.admitted
    decreases MaxPages - |st.records|, |st.queue|
  {
    if st.queue != [] && |st.records| < MaxPages {
      var next := Step(st, fetch, base, category);
      if next.Some? {
        StepKeepsInv(st, start, base, category, fetch);
        RunKeepsInv(next.value, start, base, category, fetch);
      }
    }
  }

  /** What every record of a run says: it was fetched with status 200, its heading
      is at most 50 characters, and it is the record of a URL that was dequeued. */
  lemma {:induction false} RecordsForShape(urls: seq<string>, fetch: string -> Response)
    ensures forall k :: 0 <= k < |RecordsFor(urls, fetch)| ==>
      var rec := RecordsFor(urls, fetch)[k];
      rec.status == 200 && |rec.mainHeading| <= HeadingLimit && rec.url in urls
    decreases |urls|
  {
    if urls != [] {
      var init := urls[..|urls| - 1];
      RecordsForShape(init, fetch);
      forall u | u in init ensures u in urls {
        var i :| 0 <= i < |init| && init[i] == u;
        assert urls[i] == u;
      }
    }
  }

  function RecordUrls(records: seq<PageRecord>): (r: seq<string>)
    ensures |r| == |records|
    ensures forall k :: 0 <= k < |records| ==> r[k] == records[k].url
  {
    seq(|records|, k requires 0 <= k < |records| => records[k].url)
  }

  /** URLs fetched once each give records for distinct URLs. */
  lemma {:induction false} RecordsForDistinct(urls: seq<string>, fetch: string -> Response)
    requires Distinct(urls)
    ensures Distinct(RecordUrls(RecordsFor(urls, fetch)))
    decreases |urls|
  {
    if urls != [] {
      var n := |urls| - 1;
      var init := urls[..n];
      RecordsForDistinct(init, fetch);
      RecordsForShape(init, fetch);
      var before := RecordsFor(init, fetch);
      var all := RecordsFor(urls, fetch);
      assert all == before + RecordsOf(urls[n], fetch);
      forall i, j | 0 <= i < j < |all| ensures all[i].url != all[j].url {
        if j >= |before| {
          assert all[j].url == urls[n];
          assert all[i] == before[i];
          assert urls[n] !in init;
        } else {
          assert RecordUrls(before)[i] != RecordUrls(before)[j];
        }
      }
    }
  }

  /** What the crawl returns, when it does not raise: at most 100 records, each
      with status 200 and a heading of at most 50 characters, no URL twice, and
      they are exactly the records of the URLs it dequeued, in dequeue order,
      which is the order in which those URLs were admitted. */
  lemma CrawlResult(fetch: string -> Response, base: Url, category: string, start: Url)
    ensures var r := Run(Init(start), fetch, base, category);
      r.Some? ==>
        && Inv(r.value, start, base, category, fetch)
        && (r.value.queue == [] || |r.value.records| == MaxPages)
        && Distinct(RecordUrls(r.value.records))
        && forall k :: 0 <= k < |r.value.records| ==>
             r.value.records[k].status == 200 && |r.value.records[k].mainHeading| <= HeadingLimit
  {
    InitInv(start, base, category, fetch);
    RunKeepsInv(Init(start), start, base, category, fetch);
    var r := Run(Init(start), fetch, base, category);
    if r.Some? {
      var st := r.value;
      var f := Fulls(st.admitted);
      assert Distinct(Processed(st)) by {
        forall i, j | 0 <= i < j < |Processed(st)| ensures Processed(st)[i] != Processed(st)[j] {
          assert Processed(st)[i] == f[i] && Processed(st)[j] == f[j];
        }
      }
      RecordsForDistinct(Processed(st), fetch);
      RecordsForShape(Processed(st), fetch);
    }
  }

  /** The inner loop over a fetched page's links: each new link on the base host
      under the category path is marked visited and queued, in document order. */
  method AdmitLinks(links: seq<Url>, visited0: set<string>, queue0: seq<string>, ghost admitted0: seq<Url>,
                    base: Url, category: string)
    returns (visited: set<string>, queue: seq<string>, ghost admitted: seq<Url>)
    ensures forall records ::
      State(queue, visited, records, admitted) ==
      AdmitAll(State(queue0, visited0, records, admitted0), links, base, category)
  {
    visited, queue, admitted := visited0, queue0, admitted0;
    var i := 0;
    while i < |links|
      invariant 0 <= i <= |links|
      invariant forall records ::
        State(queue, visited, records, admitted) ==
        AdmitAll(State(queue0, visited0, records, admitted0), links[..i], base, category)
    {
      var link := links[i];
      if link.full !in visited && link.host == base.host && StartsWith(link.path, category) {
        visited := visited + {link.full};
        queue := queue + [link.full];
        admitted := admitted + [link];
      }
      assert links[..i + 1][..i] == links[..i];
      i := i + 1;
    }
    assert links[..i] == links;
  }

  /** `analyze_and_crawl`: start from the resolved category URL, take URLs from the
      front of the queue, record every page fetched with status 200, and queue the
      new links on the base host under the category path, until the queue is empty
      or 100 records are held. `None` stands for the error a title without a
      string raises. */
  method AnalyzeAndCrawl(fetch: string -> Response, base: Url, category: string, start: Url)
    returns (outcome: Option<seq<PageRecord>>)
    ensures outcome == CrawlRecords(fetch, base, category, start)
    ensures outcome.Some? ==> |outcome.value| <= MaxPages
    ensures outcome.Some? ==> Distinct(RecordUrls(outcome.value))
    ensures outcome.Some? ==> forall k :: 0 <= k < |outcome.value| ==>
      outcome.value[k].status == 200 && |outcome.value[k].mainHeading| <= HeadingLimit
  {
    CrawlResult(fetch, base, category, start);
    InitInv(start, base, category, fetch);
    var queue := [start.full];
    var visited := {start.full};
    var records: seq<PageRecord> := [];
    ghost var admitted := [start];
    while queue != [] && |records| < MaxPages
      invariant Inv(State(queue, visited, records, admitted), start, base, category, fetch)
      invariant Run(State(queue, visited, records, admitted), fetch, base, category) == Run(Init(start), fetch, base, category)
      decreases MaxPages - |records|, |queue|
    {
      ghost var before := State(queue, visited, records, admitted);
      StepKeepsInv(before, start, base, category, fetch);
      var current := queue[0];
      queue := queue[1..];
      var response := fetch(current);
      if response.Http? && response.status == 200 {
        var page := response.page;
        if page.title.TitleWithoutString? {
          return None;
        }
        var title := if page.title.TitleText? then Strip(page.title.text, PyWhitespace) else NoTitle;
        var heading := if page.h1.Some? then Take(page.h1.value, HeadingLimit) else NoHeading;
        records := records + [PageRecord(current, title, heading, response.status)];
        assert records == before.records + RecordsOf(current, fetch);
        visited, queue, admitted := AdmitLinks(page.links, visited, queue, admitted, base, category);
        assert State(queue, visited, records, admitted) ==
          AdmitAll(before.(queue := before.queue[1..], records := records), page.links, base, category);
      }
      assert Step(before, fetch, base, category) == Some(State(queue, visited, records, admitted));
    }
    outcome := Some(records);
  }

  // ---------------------------------------------------------------------------
  // Scenarios

  /** The category test is a literal prefix test: "/cat" also admits "/category2". */
  lemma PrefixAdmitsSibling()
    ensures Admissible(Url("https://example.com/category2", "example.com", "/category2"),
                       Url("https://example.com", "example.com", ""), "/cat")
  {
  }

  /** A start page with one link under the category and one outside it: the crawl
      fetches the start page and the linked page under the category, in that
      order, and never the other one. Nothing is asked of the start URL itself. */
  lemma InScopeLinkFollowed(fetch: string -> Response, base: Url, category: string,
                            start: Url, inside: Url, outside: Url, startPage: Page, insidePage: Page)
    requires inside.full != start.full
    requires Admissible(inside, base, category) && !StartsWith(outside.path, category)
    requires !startPage.title.TitleWithoutString? && startPage.links == [inside, outside]
    requires !insidePage.title.TitleWithoutString? && insidePage.links == []
    requires fetch(start.full) == Http(200, startPage) && fetch(inside.full) == Http(200, insidePage)
    ensures CrawlRecords(fetch, base, category, start) ==
      Some([RecordOf(start.full, fetch(start.full)).value, RecordOf(inside.full, fetch(inside.full)).value])
  {
    var s0 := Init(start);
    var rec0 := RecordOf(start.full, fetch(start.full)).value;
    var mid := State([], {start.full}, [rec0], [start]);
    assert [inside, outside][..1] == [inside];
    assert [inside][..0] == [];
    assert AdmitAll(mid, [], base, category) == mid;
    var afterInside := AdmitAll(mid, [inside], base, category);
    assert afterInside == Admit(mid, inside, base, category);
    assert afterInside == State([inside.full], {start.full, inside.full}, [rec0], [start, inside]);
    var s1 := AdmitAll(mid, [inside, outside], base, category);
    assert s1 == afterInside;
    assert s0.queue[0] == start.full && s0.queue[1..] == [];
    assert s0.(queue := s0.queue[1..]).(records := s0.records + [rec0]) == mid;
    assert Step(s0, fetch, base, category) == Some(s1);
    var rec1 := RecordOf(inside.full, fetch(inside.full)).value;
    var s2 := State([], {start.full, inside.full}, [rec0, rec1], [start, inside]);
    assert s1.queue[0] == inside.full && s1.queue[1..] == [];
    assert s1.(queue := s1.queue[1..]).(records := s1.records + [rec1]) == s2;
    assert AdmitAll(s2, insidePage.links, base, category) == s2;
    assert Step(s1, fetch, base, category) == Some(s2);
    assert Run(s1, fetch, base, category) == Run(s2, fetch, base, category);
  }
}
