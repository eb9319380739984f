/**
 * Structure analysis: from the navigation links of the base page, the sorted,
 * duplicate-free list of top-level category paths a crawl can be started under.
 */
module Structure {
  import opened Wrappers
  import opened Text
  import opened Web

  /** Why the analysis raises (the source wraps each in one generic exception). */
  datatype AnalysisError =
    | SessionFailed           // the warm-up GET that opens the session raised
    | RequestFailed           // the GET of the base URL raised
    | HttpError(status: int)  // `raise_for_status`: a 4xx or 5xx status

  /** `raise_for_status` raises exactly for client and server error statuses. */
  predicate IsErrorStatus(status: int) {
    400 <= status < 600
  }

  /** A login, logout or signout page, compared case-insensitively. */
  predicate IsAuthPage(path: string) {
    var lower := LowerAscii(path);
    StartsWith(lower, "/login") || StartsWith(lower, "/logout") || StartsWith(lower, "/signout")
  }

  /** The last segment of the raw path has a '.': taken for a file, not a page. */
  predicate LooksLikeFile(path: string) {
    '.' in LastSegment(path)
  }

  /** The three checks a navigation link must pass, all on its raw path. */
  predicate KeepsLink(base: Url, link: Url) {
    link.host == base.host && !IsAuthPage(link.path) && !LooksLikeFile(link.path)
  }

  /** The base URL's own path without trailing slashes. */
  function BasePath(base: Url): string {
    RStrip(base.path, {'/'})
  }

  /** A link's path without trailing slashes. */
  function TrimmedPath(link: Url): string {
    RStrip(link.path, {'/'})
  }

  /** A link adds a category when it passes the checks and its trimmed path is
      neither empty nor the base URL's own path. */
  predicate Contributes(base: Url, link: Url) {
    KeepsLink(base, link) && TrimmedPath(link) != [] && TrimmedPath(link) != BasePath(base)
  }

  /** The shape of a category path: non-empty, a leading '/', no trailing '/'. */
  predicate IsCategoryPath(p: string) {
    p != [] && p[0] == '/' && p[|p| - 1] != '/'
  }

  /** The category a contributing link adds: its trimmed path, with a '/' put in
      front when it has none. */
  function CategoryOf(link: Url): (p: string)
    requires TrimmedPath(link) != []
    ensures IsCategoryPath(p)
    ensures p == TrimmedPath(link) || p == "/" + TrimmedPath(link)
    ensures AbsolutePath(link.path) ==> p == TrimmedPath(link)
  {
    var path := TrimmedPath(link);
    if StartsWith(path, "/") then path else "/" + path
  }

  /** The set of categories a sequence of navigation links yields. */
  function Categories(base: Url, links: seq<Url>): (cats: set<string>)
    ensures forall p :: p in cats ==> IsCategoryPath(p)
    decreases |links|
  {
    if links == [] then {}
    else
      var last := links[|links| - 1];
      Categories(base, links[..|links| - 1])
        + (if Contributes(base, last) then {CategoryOf(last)} else {})
  }

  /** `link` contributes exactly the category `p`. */
  predicate AddsCategory(base: Url, link: Url, p: string) {
    Contributes(base, link) && CategoryOf(link) == p
  }

  /** A path is a category exactly when some link contributes it. */
  lemma {:induction false} CategoriesMembership(base: Url, links: seq<Url>, p: string)
    ensures p in Categories(base, links) <==> exists i :: 0 <= i < |links| && AddsCategory(base, links[i], p)
    decreases |links|
  {
    if p in Categories(base, links) {
      var i := CategoryWitness(base, links, p);
    }
    if exists i :: 0 <= i < |links| && AddsCategory(base, links[i], p) {
      var i :| 0 <= i < |links| && AddsCategory(base, links[i], p);
      WitnessGivesCategory(base, links, p, i);
    }
  }

  /** The link a category comes from. */
  lemma {:induction false} CategoryWitness(base: Url, links: seq<Url>, p: string) returns (i: nat)
    requires p in Categories(base, links)
    ensures i < |links| && AddsCategory(base, links[i], p)
    decreases |links|
  {
    var n := |links| - 1;
    if AddsCategory(base, links[n], p) {
      i := n;
    } else {
      assert p in Categories(base, links[..n]);
      i := CategoryWitness(base, links[..n], p);
      assert links[..n][i] == links[i];
    }
  }

  /** Every contributing link's category is in the result. */
  lemma {:induction false} WitnessGivesCategory(base: Url, links: seq<Url>, p: string, i: nat)
    requires i < |links| && AddsCategory(base, links[i], p)
    ensures p in Categories(base, links)
    decreases |links|
  {
    var n := |links| - 1;
    if i < n {
      assert links[..n][i] == links[i];
      WitnessGivesCategory(base, links[..n], p, i);
    }
  }

  /** With the paths `urlparse` gives (empty or beginning with '/'), the base URL's
      own path is never returned as a category. */
  lemma BasePathNeverACategory(base: Url, links: seq<Url>)
    requires forall i :: 0 <= i < |links| ==> AbsolutePath(links[i].path)
    ensures BasePath(base) !in Categories(base, links)
  {
    CategoriesMembership(base, links, BasePath(base));
    forall i | 0 <= i < |links| ensures !AddsCategory(base, links[i], BasePath(base)) {
    }
  }

  /** A link that fails one of the three checks adds nothing. */
  lemma {:induction false} RejectedLinkAddsNothing(base: Url, links: seq<Url>, link: Url)
    requires !KeepsLink(base, link)
    ensures Categories(base, links + [link]) == Categories(base, links)
  {
    assert (links + [link])[..|links|] == links;
  }

  /** The checks run on the raw path: a trailing '/' hides a file extension. */
  lemma TrailingSlashHidesExtension()
    ensures var link := Url("https://example.com/doc.pdf/", "example.com", "/doc.pdf/");
      KeepsLink(Url("https://example.com", "example.com", ""), link) && CategoryOf(link) == "/doc.pdf"
  {
    var path := "/doc.pdf/";
    assert LastSegment(path) == [];
    assert LowerAscii(path)[1] == 'd';
    assert RStrip(path, {'/'}) == "/doc.pdf" by {
      assert path[..|path| - 1] == "/doc.pdf";
    }
  }

  /** Python's `sorted` over a set of strings: the unique strictly increasing
      sequence of its elements. */
  method SortSet(s: set<string>) returns (r: seq<string>)
    ensures StrictlySorted(r)
    ensures forall x :: x in r <==> x in s
  {
    r := [];
    var rest := s;
    while rest != {}
      invariant forall x :: x in s <==> x in r || x in rest
      invariant forall x :: x in r ==> x !in rest
      invariant StrictlySorted(r)
      invariant forall i, y :: 0 <= i < |r| && y in rest ==> LexLess(r[i], y)
      decreases rest
    {
      LexMinimumExists(rest);
      var m :| m in rest && forall y :: y in rest && y != m ==> LexLess(m, y);
      r := r + [m];
      rest := rest - {m};
    }
  }

  /** The loop over the navigation links: the set of categories they yield. */
  method CollectCategories(base: Url, links: seq<Url>) returns (majorPaths: set<string>)
    ensures majorPaths == Categories(base, links)
  {
    majorPaths := {};
    var i := 0;
    while i < |links|
      invariant 0 <= i <= |links|
      invariant majorPaths == Categories(base, links[..i])
    {
      var link := links[i];
      if KeepsLink(base, link) {
        var path := RStrip(link.path, {'/'});
        if path != [] && path != RStrip(base.path, {'/'}) {
          majorPaths := majorPaths + {if StartsWith(path, "/") then path else "/" + path};
        }
      }
      CategoriesSnoc(base, links[..i], link);
      assert links[..i + 1] == links[..i] + [link];
      i := i + 1;
    }
    assert links[..i] == links;
  }

  /** `analyze_structure`: open a session with a warm-up GET (`probe`), GET the
      base URL (`response`), collect the categories of its navigation links into
      a set and return them sorted. */
  method AnalyzeStructure(base: Url, probe: Response, response: Response)
    returns (r: Result<seq<string>, AnalysisError>)
    ensures probe.NetworkError? ==> r == Failure(SessionFailed)
    ensures probe.Http? && response.NetworkError? ==> r == Failure(RequestFailed)
    ensures probe.Http? && response.Http? && IsErrorStatus(response.status) ==>
      r == Failure(HttpError(response.status))
    ensures r.Success? <==> probe.Http? && response.Http? && !IsErrorStatus(response.status)
    ensures r.Success? ==> StrictlySorted(r.value)
    ensures r.Success? ==> forall p :: p in r.value <==> p in Categories(base, response.page.navLinks)
    ensures r.Success? ==> forall i :: 0 <= i < |r.value| ==> IsCategoryPath(r.value[i])
  {
    if probe.NetworkError? {
      return Failure(SessionFailed);
    }
    if response.NetworkError? {
      return Failure(RequestFailed);
    }
    if IsErrorStatus(response.status) {
      return Failure(HttpError(response.status));
    }
    var majorPaths := CollectCategories(base, response.page.navLinks);
    var sorted := SortSet(majorPaths);
    return Success(sorted);
  }

  // The base `https://example.com` with navigation links to /products,
  // /products/widget.png, /login and /about.
  const ExampleBase := Url("https://example.com", "example.com", "")
  const ProductsLink := Url("https://example.com/products", "example.com", "/products")
  const WidgetLink := Url("https://example.com/products/widget.png", "example.com", "/products/widget.png")
  const LoginLink := Url("https://example.com/login", "example.com", "/login")
  const AboutLink := Url("https://example.com/about", "example.com", "/about")

  /** A path without a '.' is never taken for a file. */
  lemma NoDotIsNoFile(path: string)
    requires '.' !in path
    ensures !LooksLikeFile(path)
  {
  }

  /** A link on the base host to a one-segment page `/x`, where `x` has no '.' and
      begins with a lower-case letter other than 'l' and 's', contributes `/x`. */
  lemma PageLinkContributes(base: Url, link: Url)
    requires link.host == base.host && link.path != BasePath(base)
    requires |link.path| >= 2 && link.path[0] == '/' && '/' !in link.path[1..] && '.' !in link.path
    requires 'a' <= link.path[1] <= 'z' && link.path[1] != 'l' && link.path[1] != 's'
    ensures AddsCategory(base, link, link.path)
  {
    var path := link.path;
    NoDotIsNoFile(path);
    assert LowerAscii(path)[1] == path[1];
    assert path[|path| - 1] in path[1..];
    assert TrimmedPath(link) == path;
  }

  lemma ProductsLinkContributes()
    ensures AddsCategory(ExampleBase, ProductsLink, "/products")
  {
    assert BasePath(ExampleBase) == "";
    assert ProductsLink.path[1..] == "products";
    PageLinkContributes(ExampleBase, ProductsLink);
  }

  lemma AboutLinkContributes()
    ensures AddsCategory(ExampleBase, AboutLink, "/about")
  {
    assert BasePath(ExampleBase) == "";
    assert AboutLink.path[1..] == "about";
    PageLinkContributes(ExampleBase, AboutLink);
  }

  /** A link whose path ends in a segment with a '.' is taken for a file. */
  lemma FileLinkRejected(base: Url, link: Url, dir: string, file: string)
    requires link.path == dir + "/" + file && '/' !in file && '.' in file
    ensures !KeepsLink(base, link)
  {
    assert link.path[|dir| + 1..] == file;
    LastSegmentAfter(link.path, |dir|);
  }

  lemma WidgetLinkRejected()
    ensures !KeepsLink(ExampleBase, WidgetLink)
  {
    assert WidgetLink.path == "/products" + "/" + "widget.png";
    assert "widget.png"[6] == '.';
    FileLinkRejected(ExampleBase, WidgetLink, "/products", "widget.png");
  }

  lemma LoginLinkRejected()
    ensures !KeepsLink(ExampleBase, LoginLink)
  {
    assert LowerAscii(LoginLink.path) == "/login";
  }

  /** Appending a link adds its category, if it contributes one. */
  lemma CategoriesSnoc(base: Url, links: seq<Url>, link: Url)
    ensures Categories(base, links + [link]) ==
      Categories(base, links) + (if Contributes(base, link) then {CategoryOf(link)} else {})
  {
    assert (links + [link])[..|links|] == links;
  }

  /** Four links of which the first and the last contribute and the middle two are
      rejected yield exactly the categories of the first and the last. */
  lemma OuterLinksOfFour(base: Url, a: Url, b: Url, c: Url, d: Url, pa: string, pd: string)
    requires AddsCategory(base, a, pa) && AddsCategory(base, d, pd)
    requires !KeepsLink(base, b) && !KeepsLink(base, c)
    ensures Categories(base, [a, b, c, d]) == {pa, pd}
  {
    CategoriesSnoc(base, [], a);
    assert [] + [a] == [a];
    CategoriesSnoc(base, [a], b);
    assert [a] + [b] == [a, b];
    CategoriesSnoc(base, [a, b], c);
    assert [a, b] + [c] == [a, b, c];
    CategoriesSnoc(base, [a, b, c], d);
    assert [a, b, c] + [d] == [a, b, c, d];
  }

  /** The example navigation yields the categories /about and /products. */
  lemma NavigationExample()
    ensures Categories(ExampleBase, [ProductsLink, WidgetLink, LoginLink, AboutLink]) == {"/about", "/products"}
  {
    ProductsLinkContributes();
    AboutLinkContributes();
    WidgetLinkRejected();
    LoginLinkRejected();
    OuterLinksOfFour(ExampleBase, ProductsLink, WidgetLink, LoginLink, AboutLink, "/products", "/about");
  }

  /** Sorted, /about comes before /products. */
  lemma NavigationOrder()
    ensures StrictlySorted(["/about", "/products"])
  {
    assert LexLess("/about", "/products");
  }
}
