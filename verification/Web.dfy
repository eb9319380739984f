/**
 * What the crawler learns from the network and from HTML parsing, taken as given.
 * URL resolution, HTTP and parsing themselves are not modelled: a fetch is an
 * oracle from a URL string to a `Response`, and every link it reports is
 * already resolved against the page it was found on.
 */
module Web {
  import opened Wrappers

  /** A resolved URL: the absolute string, its network location (host and any
      port, what the source compares as `netloc`) and its path. */
  datatype Url = Url(full: string, host: string, path: string)

  /** The page's `<title>` element as the parser reports it. */
  datatype Title =
    | NoTitleElement              // the page has no title element
    | TitleText(text: string)     // the element holds exactly one string
    | TitleWithoutString          // an element whose `.string` is None: empty, or several children

  /** A parsed HTML page.
      `h1` is the whitespace-stripped text of the first `<h1>`, if there is one;
      `navLinks` are the anchors with an href inside navigation regions (nav,
      #sidebar, .main-menu, .navbar), `links` all anchors with an href. */
  datatype Page = Page(title: Title, h1: Option<string>, navLinks: seq<Url>, links: seq<Url>)

  /** The outcome of one HTTP GET: a raised request exception, or a status and a body. */
  datatype Response = NetworkError | Http(status: int, page: Page)

  /** The shape of every path `urlparse` reports for a URL with a host: empty, or
      beginning with '/'. */
  predicate AbsolutePath(path: string) {
    path == [] || path[0] == '/'
  }
}
