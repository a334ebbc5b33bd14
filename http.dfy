/** What the modelled code sends to and gets back from the GitHub API. The
    network itself is not modelled: a listing call is given a `server`
    function from request to response, so that the walkers can be stated for
    every possible sequence of answers. */
module Http {
  import opened Outcomes

  /** A query-string value: `per_page` and `page` are numbers, `since` is text. */
  datatype Param = NumParam(n: int) | TextParam(s: string)

  datatype Request = Request(url: string, params: map<string, Param>, headers: map<string, string>)

  /** An answer to a listing request: the status code, the decoded JSON array
      (`None` when the body is not valid JSON) and the `Link` header, if any. */
  datatype Response<T> = Response(status: int, body: Option<seq<T>>, link: Option<string>)

  /** The answers to one listing request, page by page: the request with its
      `page` parameter set to `p`, as `params.update({'page': current})` does. */
  function Pager<T>(server: Request -> Response<T>, base: Request): int -> Response<T> {
    (p: int) => server(base.(params := base.params["page" := NumParam(p)]))
  }
}
