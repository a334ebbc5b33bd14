/** The gist listing of the `libgist` package: a `rel="last"` page limit read
    from the first response only, and a loop that skips pages it cannot use
    instead of giving up. */
module LibgistGists {
  import opened Outcomes
  import opened Text
  import opened Http
  import GisterGists

  const GithubApiUrl := "https://api.github.com"
  const GistAccept := "application/vnd.github.VERSION.raw+json"

  // ===================================================== check_page_limit

  /** The page number of the first segment that mentions `rel="last"`;
      later segments are never looked at once one mentions it. */
  function FirstLastSegment(segments: seq<string>): (r: Option<nat>)
    ensures (forall i :: 0 <= i < |segments| ==> !Contains(segments[i], GisterGists.RelNeedle("last"))) ==> r.None?
    decreases |segments|
  {
    if |segments| == 0 then None
    else if Contains(segments[0], GisterGists.RelNeedle("last")) then GisterGists.ParseLinkHeader(segments[0], "last")
    else
      var r := FirstLastSegment(segments[1..]);
      assert forall i :: 0 <= i < |segments| - 1 ==> segments[1..][i] == segments[i + 1];
      r
  }

  /** `check_page_limit(response)`: reading the absent `Link` header raises
      `KeyError`; otherwise every `", "`-separated segment is scanned. */
  function LastPageLimit(link: Option<string>): (r: Outcome<Option<nat>>)
    ensures r.Raised? <==> link.None?
  {
    if link.None? then Raised else Returned(FirstLastSegment(Split(link.value, ", ")))
  }

  lemma {:induction false} FirstLastSegmentAt(segments: seq<string>, k: nat)
    requires k < |segments|
    requires Contains(segments[k], GisterGists.RelNeedle("last"))
    requires forall j :: 0 <= j < k ==> !Contains(segments[j], GisterGists.RelNeedle("last"))
    ensures FirstLastSegment(segments) == GisterGists.ParseLinkHeader(segments[k], "last")
    decreases k
  {
    if k > 0 {
      FirstLastSegmentAt(segments[1..], k - 1);
    }
  }

  /** A `rel="last"` segment is found wherever it stands in the header, unlike
      the `next` lookup of the `gister` package, which reads the first segment only. */
  lemma LastSegmentFoundAnywhere(segments: seq<string>, k: nat, url: string, n: nat)
    requires k < |segments| && segments[k] == GisterGists.LinkSegment(url, n, "last")
    requires '>' !in url && ';' !in url
    requires forall i :: 0 <= i < |segments| ==> !Contains(segments[i], ", ")
    requires forall j :: 0 <= j < k ==> !Contains(segments[j], GisterGists.RelNeedle("last"))
    ensures LastPageLimit(Some(Join(segments, ", "))) == Returned(Some(n))
  {
    SplitJoin(segments, ", ");
    GisterGists.LinkSegmentRoundTrip(url, n, "last");
    FirstLastSegmentAt(segments, k);
  }

  /** A header without any `rel="last"` segment sets no limit. */
  lemma NoLastSegmentNoLimit(segments: seq<string>)
    requires |segments| >= 1
    requires forall i :: 0 <= i < |segments| ==> !Contains(segments[i], ", ")
    requires forall i :: 0 <= i < |segments| ==> !Contains(segments[i], GisterGists.RelNeedle("last"))
    ensures LastPageLimit(Some(Join(segments, ", "))) == Returned(None)
  {
    SplitJoin(segments, ", ");
  }

  // ============================================================ paging loop

  /** The new `page_limit` after the first response: lowered to `last`, never raised. */
  function Clamp(pageLimit: int, last: Option<nat>): (r: int)
    ensures r <= pageLimit
    ensures last.Some? ==> r <= last.value
    ensures r == pageLimit || (last.Some? && r == last.value)
  {
    if last.Some? && pageLimit > last.value then last.value else pageLimit
  }

  /** What one response adds to the result: the body of a 200, nothing for any
      other status, and a raised `ValueError` for a 200 whose body does not decode. */
  function Kept<T>(r: Response<T>): Outcome<seq<T>> {
    if r.status != 200 then Returned([])
    else if r.body.None? then Raised
    else Returned(r.body.value)
  }

  /** The limit in force after page `current` has been handled; raises when
      the first response has no `Link` header. */
  function LimitAfter<T>(r: Response<T>, last: Option<string> -> Outcome<Option<nat>>, limit: int, checked: bool): (l: Outcome<int>)
    ensures l.Returned? ==> l.value <= limit
  {
    if checked then Returned(limit)
    else
      var found := last(r.link);
      if found.Raised? then Raised else Returned(Clamp(limit, found.value))
  }

  /** What `list_gists` returns from page `current` on, with the limit
      currently in force and whether the first response was already examined. */
  function ListFrom<T>(fetch: int -> Response<T>, last: Option<string> -> Outcome<Option<nat>>, limit: int, current: int, checked: bool): Outcome<seq<T>>
    decreases limit - current
  {
    if current > limit then Returned([])
    else
      var response := fetch(current);
      var kept := Kept(response);
      var limit' := LimitAfter(response, last, limit, checked);
      if kept.Raised? || limit'.Raised? then Raised
      else Prepend(kept.value, ListFrom(fetch, last, limit'.value, current + 1, true))
  }

  /** The pages `list_gists` requests from page `current` on. */
  function RequestedFrom<T>(fetch: int -> Response<T>, last: Option<string> -> Outcome<Option<nat>>, limit: int, current: int, checked: bool): seq<int>
    decreases limit - current
  {
    if current > limit then []
    else
      var response := fetch(current);
      var limit' := LimitAfter(response, last, limit, checked);
      if Kept(response).Raised? || limit'.Raised? then [current]
      else [current] + RequestedFrom(fetch, last, limit'.value, current + 1, true)
  }

  /** The concatenated bodies of the 200 responses among `pages`. */
  function Bodies200<T>(fetch: int -> Response<T>, pages: seq<int>): seq<T>
    requires forall i :: 0 <= i < |pages| ==> Kept(fetch(pages[i])).Returned?
  {
    if |pages| == 0 then []
    else Kept(fetch(pages[0])).value + Bodies200(fetch, pages[1..])
  }

  /** Pages are requested in increasing order from `current`, never beyond the
      limit in force, and never beyond the `last` page announced by the first
      response (one request is always made when the limit allows any). */
  lemma {:induction false} RequestsBounded<T>(fetch: int -> Response<T>, last: Option<string> -> Outcome<Option<nat>>, limit: int, current: int, checked: bool)
    ensures var req := RequestedFrom(fetch, last, limit, current, checked);
      (forall i :: 0 <= i < |req| ==> req[i] == current + i) &&
      (current <= limit ==> |req| <= limit - current + 1) &&
      (current > limit ==> req == []) &&
      (!checked && current <= limit && last(fetch(current).link).Returned? && last(fetch(current).link).value.Some? ==>
        |req| <= if last(fetch(current).link).value.value < current then 1 else last(fetch(current).link).value.value - current + 1)
    decreases limit - current
  {
    if current <= limit {
      var response := fetch(current);
      var limit' := LimitAfter(response, last, limit, checked);
      if !(Kept(response).Raised? || limit'.Raised?) {
        RequestsBounded(fetch, last, limit'.value, current + 1, true);
      }
    }
  }

  /** The result is the concatenation of the 200 bodies of the requested
      pages, in order; it is raised exactly when the last requested page is a
      200 that does not decode or the first response has no `Link` header. */
  lemma {:induction false} SkippedPagesContributeNothing<T>(fetch: int -> Response<T>, last: Option<string> -> Outcome<Option<nat>>, limit: int, current: int, checked: bool)
    ensures var req := RequestedFrom(fetch, last, limit, current, checked);
      var r := ListFrom(fetch, last, limit, current, checked);
      (forall i :: 0 <= i < |req| - 1 ==> Kept(fetch(req[i])).Returned?) &&
      (r.Returned? ==> (forall i :: 0 <= i < |req| ==> Kept(fetch(req[i])).Returned?) && r.value == Bodies200(fetch, req)) &&
      (r.Raised? <==>
        (|req| > 0 &&
         (Kept(fetch(req[|req| - 1])).Raised? || LimitAfter(fetch(req[|req| - 1]), last, limit, checked || |req| > 1).Raised?)))
    decreases limit - current
  {
    if current <= limit {
      var response := fetch(current);
      var limit' := LimitAfter(response, last, limit, checked);
      if !(Kept(response).Raised? || limit'.Raised?) {
        SkippedPagesContributeNothing(fetch, last, limit'.value, current + 1, true);
        var rest := RequestedFrom(fetch, last, limit'.value, current + 1, true);
        var req := [current] + rest;
        assert req[1..] == rest;
        if |rest| > 0 {
          assert LimitAfter(fetch(rest[|rest| - 1]), last, limit'.value, true) == Returned(limit'.value);
        }
      }
    }
  }

  /** One step of `ListFrom` and `RequestedFrom` unfolded. */
  lemma ListFromStep<T>(fetch: int -> Response<T>, last: Option<string> -> Outcome<Option<nat>>, limit: int, current: int, checked: bool)
    requires current <= limit
    ensures var response := fetch(current);
      var kept := Kept(response);
      var limit' := LimitAfter(response, last, limit, checked);
      (kept.Raised? || limit'.Raised? ==>
         ListFrom(fetch, last, limit, current, checked) == Raised && RequestedFrom(fetch, last, limit, current, checked) == [current]) &&
      (kept.Returned? && limit'.Returned? ==>
         ListFrom(fetch, last, limit, current, checked) == Prepend(kept.value, ListFrom(fetch, last, limit'.value, current + 1, true)) &&
         RequestedFrom(fetch, last, limit, current, checked) == [current] + RequestedFrom(fetch, last, limit'.value, current + 1, true))
  {
  }

  /** The `while current <= page_limit` loop of `list_gists`, for the pages
      `fetch` serves and the `last`-page lookup `last`. */
  method WalkClamped<T>(fetch: int -> Response<T>, last: Option<string> -> Outcome<Option<nat>>, pageLimit: int)
    returns (result: Outcome<seq<T>>, requested: seq<int>)
    ensures result == ListFrom(fetch, last, pageLimit, 1, false)
    ensures requested == RequestedFrom(fetch, last, pageLimit, 1, false)
  {
    var pages: seq<T> := [];
    requested := [];
    var current := 1;
    var limit := pageLimit;
    var checkFlag := false;
    PrependNothing(ListFrom(fetch, last, pageLimit, 1, false));
    while current <= limit
      invariant checkFlag <==> current > 1
      invariant !checkFlag ==> limit == pageLimit
      invariant ListFrom(fetch, last, pageLimit, 1, false) == Prepend(pages, ListFrom(fetch, last, limit, current, checkFlag))
      invariant RequestedFrom(fetch, last, pageLimit, 1, false) == requested + RequestedFrom(fetch, last, limit, current, checkFlag)
      decreases limit - current
    {
      var response := fetch(current);
      ghost var before, checked := requested, checkFlag;
      ListFromStep(fetch, last, limit, current, checked);
      requested := requested + [current];
      var added: seq<T> := [];
      if response.status == 200 {
        if response.body.None? {
          return Raised, requested;
        }
        added := response.body.value;
      }
      assert Kept(response) == Returned(added);
      var limit' := limit;
      if !checkFlag {
        var found := last(response.link);
        if found.Raised? {
          assert LimitAfter(response, last, limit, checked) == Raised;
          return Raised, requested;
        }
        limit' := Clamp(limit, found.value);
        checkFlag := true;
      }
      assert LimitAfter(response, last, limit, checked) == Returned(limit');
      ghost var rest := RequestedFrom(fetch, last, limit', current + 1, true);
      assert before + ([current] + rest) == requested + rest;
      PrependAppend(pages, added, ListFrom(fetch, last, limit', current + 1, true));
      pages := pages + added;
      limit := limit';
      current := current + 1;
    }
    assert pages + [] == pages;
    return Returned(pages), requested;
  }

  /** The libgist `GIST_HEADER` dictionary and the listing call that reads and
      updates it. */
  class GistHeader {
    var fields: map<string, string>

    constructor ()
      ensures fields == map["Accept" := GistAccept]
    {
      fields := map["Accept" := GistAccept];
    }

    /** `list_gists(user, token, api=…, since=…, per_page=…, page_limit=…)`:
        `result` is `Raised` where the call raises. */
    method ListGists<T>(server: Request -> Response<T>, user: Option<string>, token: Option<string>,
                        api: Option<string>, since: Option<string>, perPage: int, pageLimit: int)
      returns (result: Outcome<seq<T>>, requested: seq<int>)
      modifies this
      ensures fields == if user.None? && token.Some? then old(fields)["Authorization" := "token " + token.value] else old(fields)
      ensures var fetch := Pager(server, Request(ListGistsUrl(api, user), GisterGists.ListParams(perPage, since), fields));
        result == ListFrom(fetch, LastPageLimit, pageLimit, 1, false) &&
        requested == RequestedFrom(fetch, LastPageLimit, pageLimit, 1, false)
    {
      if user.None? && token.Some? {
        fields := fields["Authorization" := "token " + token.value];
      }
      var request := Request(ListGistsUrl(api, user), GisterGists.ListParams(perPage, since), fields);
      result, requested := WalkClamped(Pager(server, request), LastPageLimit, pageLimit);
    }
  }

  /** The listing URL: `api` is used as given, without stripping a trailing `/`. */
  function ListGistsUrl(api: Option<string>, user: Option<string>): (url: string)
    ensures user.None? ==> url == (if api.None? then GithubApiUrl else api.value) + "/gists"
    ensures user.Some? ==> url == (if api.None? then GithubApiUrl else api.value) + "/users/" + user.value + "/gists"
  {
    var base := if api.None? then GithubApiUrl else api.value;
    GisterGists.ListUrlShapes(base, if user.Some? then user.value else "");
    if user.None? then Join([base, "gists"], "/") else Join([base, "users", user.value, "gists"], "/")
  }
}
