/**
 * The routing chain of `handle_client` (tcp_server.py): a path and a query
 * map select the status line and the body. The index, search and 404 pages
 * are constants of the site; the exchange-rate and movie services are
 * collaborators that either return a page or raise.
 */
module Router {
  import opened Text
  import opened FormUrlEncoded

  /** What a service handler does with a query: returns a page, or raises. */
  datatype HandlerResult = Returned(page: string) | Raised

  /**
   * The site's pages and services. The 404 page is the text before the path
   * and the text after it; the path goes in verbatim.
   */
  datatype Site = Site(
    indexPage: string,
    searchPage: string,
    notFoundBefore: string,
    notFoundAfter: string,
    exchange: Query -> HandlerResult,
    movie: Query -> HandlerResult)

  /** A status code, its reason phrase and a body, or a handler that raised. */
  datatype Routed = Reply(code: int, reason: string, body: string) | HandlerFailure

  const IndexPaths: set<string> := {"/", ""}
  const ServicePaths: set<string> := {"/exchange", "/movie"}

  /** The paths the chain answers with a 200. */
  predicate Served(path: string) {
    path in IndexPaths || path == "/movies" || path in ServicePaths
  }

  function NotFoundPage(site: Site, path: string): (page: string)
    ensures Contains(page, path)
  {
    var page := site.notFoundBefore + path + site.notFoundAfter;
    assert page[|site.notFoundBefore|..|site.notFoundBefore| + |path|] == path;
    assert OccursAt(page, path, |site.notFoundBefore|);
    page
  }

  /** The if/elif chain: the first matching branch picks the page; any other path is a 404. */
  function Route(path: string, query: Query, site: Site): (r: Routed)
    ensures r.HandlerFailure? ==> path in ServicePaths
    ensures r.Reply? ==> (r.code == 200 && r.reason == "OK" <==> Served(path))
    ensures r.Reply? ==> (r.code == 404 && r.reason == "Not Found" <==> !Served(path))
    ensures !Served(path) ==> r.Reply? && Contains(r.body, path)
  {
    if path == "/" || path == "" then Reply(200, "OK", site.indexPage)
    else if path == "/movies" then Reply(200, "OK", site.searchPage)
    else if path == "/exchange" then FromHandler(site.exchange(query))
    else if path == "/movie" then FromHandler(site.movie(query))
    else Reply(404, "Not Found", NotFoundPage(site, path))
  }

  /** A handler's page goes out unchanged with a 200; a raise stays a failure. */
  function FromHandler(h: HandlerResult): (r: Routed)
    ensures h.Returned? <==> r.Reply?
    ensures h.Returned? ==> r == Reply(200, "OK", h.page)
  {
    match h
    case Returned(page) => Reply(200, "OK", page)
    case Raised => HandlerFailure
  }

  /** The routing table, entry by entry. */
  lemma RoutingTable(query: Query, site: Site)
    ensures Route("/", query, site) == Reply(200, "OK", site.indexPage)
    ensures Route("", query, site) == Reply(200, "OK", site.indexPage)
    ensures Route("/movies", query, site) == Reply(200, "OK", site.searchPage)
    ensures site.exchange(query).Returned? ==>
      Route("/exchange", query, site) == Reply(200, "OK", site.exchange(query).page)
    ensures site.exchange(query).Raised? ==> Route("/exchange", query, site) == HandlerFailure
    ensures site.movie(query).Returned? ==>
      Route("/movie", query, site) == Reply(200, "OK", site.movie(query).page)
    ensures site.movie(query).Raised? ==> Route("/movie", query, site) == HandlerFailure
  {
  }

  /** Any other path is a 404 whose page is the site's 404 text around that path. */
  lemma UnknownPath(path: string, query: Query, site: Site)
    requires !Served(path)
    ensures Route(path, query, site) == Reply(404, "Not Found", site.notFoundBefore + path + site.notFoundAfter)
  {
  }

  /** Only the service paths consult the query or the services. */
  lemma OtherRoutesIgnoreServices(path: string, q1: Query, q2: Query, s1: Site, s2: Site)
    requires path !in ServicePaths
    requires s1.indexPage == s2.indexPage && s1.searchPage == s2.searchPage
    requires s1.notFoundBefore == s2.notFoundBefore && s1.notFoundAfter == s2.notFoundAfter
    ensures Route(path, q1, s1) == Route(path, q2, s2)
  {
  }
}
