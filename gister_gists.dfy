/** The listing side of `gister/gists.py`: the `Link` header parser, the
    fail-closed paging loop shared by `list_gist`, `list_commits` and
    `list_forks`, the primary-address search of `get_email_addr`, URL
    selection, and the module-level `GIST_HEADER` dictionary. */
module GisterGists {
  import opened Outcomes
  import opened Text
  import opened Http

  const GithubApiUrl := "https://api.github.com"
  const GistAccept := "application/vnd.github.v3.raw+json,application/vnd.github.v3.base64+json"
  const EmailAccept := "application/vnd.github.v3.json"

  // ============================================================ Link header

  /** The text `rel="<rel>"` that a segment must contain. */
  function RelNeedle(rel: string): string {
    "rel=\"" + rel + "\""
  }

  /** A match of `\&page=(\d+)\>` that starts at the first character of `s`. */
  function PageAt(s: string): Option<nat> {
    if !StartsWith(s, "&page=") then None
    else
      var rest := s[6..];
      var n := DigitRun(rest);
      if 0 < n < |rest| && rest[n] == '>' then Some(DecimalValue(rest[..n])) else None
  }

  /** What the matcher `m` finds when started at position `i` of `s`. */
  function Probe(m: string -> Option<nat>, s: string, i: nat): Option<nat>
    requires i <= |s|
  {
    m(s[i..])
  }

  /** A match of the page pattern at position `i` of `s`. */
  function MatchAt(s: string, i: nat): Option<nat>
    requires i <= |s|
  {
    Probe(PageAt, s, i)
  }

  /** `r` is what a leftmost search with the matcher `m` finds in `s`. */
  ghost predicate FoundFirst(m: string -> Option<nat>, s: string, r: Option<nat>) {
    && (r.Some? ==> exists i :: 0 <= i < |s| && Probe(m, s, i) == r && forall j :: 0 <= j < i ==> Probe(m, s, j).None?)
    && (r.None? ==> forall i :: 0 <= i <= |s| ==> Probe(m, s, i).None?)
  }

  /** A miss at the first position leaves the leftmost match of the tail. */
  lemma FoundFirstStep(m: string -> Option<nat>, s: string, r: Option<nat>)
    requires |s| > 0 && Probe(m, s, 0).None? && FoundFirst(m, s[1..], r)
    ensures FoundFirst(m, s, r)
  {
    if r.Some? {
      var i :| 0 <= i < |s| - 1 && Probe(m, s[1..], i) == r && forall j :: 0 <= j < i ==> Probe(m, s[1..], j).None?;
      assert s[1..][i..] == s[i + 1..];
      assert Probe(m, s, i + 1) == r;
      forall j | 0 < j < i + 1
        ensures Probe(m, s, j).None?
      {
        assert Probe(m, s[1..], j - 1).None?;
        assert s[1..][j - 1..] == s[j..];
      }
    } else {
      forall i | 0 < i <= |s|
        ensures Probe(m, s, i).None?
      {
        assert Probe(m, s[1..], i - 1).None?;
        assert s[1..][i - 1..] == s[i..];
      }
    }
  }

  /** The leftmost match is the one at `k` when there is one there and none before it. */
  lemma FoundFirstAt(m: string -> Option<nat>, s: string, k: nat, r: Option<nat>)
    requires FoundFirst(m, s, r)
    requires k < |s| && Probe(m, s, k).Some? && forall j :: 0 <= j < k ==> Probe(m, s, j).None?
    ensures r == Probe(m, s, k)
  {
    if r.Some? {
      var i :| 0 <= i < |s| && Probe(m, s, i) == r && forall j :: 0 <= j < i ==> Probe(m, s, j).None?;
    }
  }

  /** A search finds nothing when there is a match nowhere. */
  lemma FoundFirstNone(m: string -> Option<nat>, s: string, r: Option<nat>)
    requires FoundFirst(m, s, r)
    requires forall i :: 0 <= i <= |s| ==> Probe(m, s, i).None?
    ensures r.None?
  {
  }

  /** `r` is what a leftmost search for the page pattern finds in `s`. */
  ghost predicate Leftmost(s: string, r: Option<nat>) {
    FoundFirst(PageAt, s, r)
  }

  /** `re.search(r'\&page=(?P<limit>\d+)\>', s)`, converted with `int`: the leftmost match wins. */
  function PageNumber(s: string): (r: Option<nat>)
    ensures Leftmost(s, r)
    decreases |s|
  {
    if |s| == 0 then None
    else
      assert Probe(PageAt, s, 0) == PageAt(s) by { assert s[0..] == s; }
      if PageAt(s).Some? then PageAt(s)
      else
        var r := PageNumber(s[1..]);
        FoundFirstStep(PageAt, s, r);
        r
  }

  /** `parse_link_header(page, expression)`: a segment that mentions `rel="<rel>"`
      yields the page number in the part before its first `;`. */
  function ParseLinkHeader(segment: string, rel: string): (r: Option<nat>)
    ensures r.Some? ==> Contains(segment, RelNeedle(rel))
  {
    if Contains(segment, RelNeedle(rel)) then PageNumber(Strip(Split(segment, ";")[0])) else None
  }

  /** `check_page_limit(response)`: no `Link` header means no next page, and
      only the first `", "`-separated segment is ever looked at. */
  function CheckPageLimit(link: Option<string>): (r: Option<nat>)
    ensures link.None? ==> r.None?
    ensures r.Some? ==> Contains(link.value, RelNeedle("next"))
  {
    if link.None? then None
    else
      var first := Split(link.value, ", ")[0];
      SplitHeadPrefix(link.value, ", ");
      PrefixContains(link.value, first, RelNeedle("next"));
      ParseLinkHeader(first, "next")
  }

  /** One segment of a `Link` header as GitHub writes it: `<url&page=n>; rel="rel"`. */
  function LinkSegment(url: string, n: nat, rel: string): string {
    "<" + url + "&page=" + DecimalString(n) + ">; rel=\"" + rel + "\""
  }

  lemma DigitRunStops(d: string, c: char)
    requires AllDigits(d) && !IsDigit(c)
    ensures DigitRun(d + [c]) == |d|
    decreases |d|
  {
    if |d| > 0 {
      assert (d + [c])[1..] == d[1..] + [c];
      DigitRunStops(d[1..], c);
    }
  }

  /** The leftmost match is the one at `k` when there is one there and none before it. */
  lemma PageNumberIsFirstMatch(s: string, k: nat)
    requires k < |s| && MatchAt(s, k).Some?
    requires forall j :: 0 <= j < k ==> MatchAt(s, j).None?
    ensures PageNumber(s) == MatchAt(s, k)
  {
    forall j | 0 <= j < k
      ensures Probe(PageAt, s, j).None?
    {
      assert MatchAt(s, j).None?;
    }
    FoundFirstAt(PageAt, s, k, PageNumber(s));
  }

  /** A string without `&` holds no page number. */
  lemma NoAmpersandNoPage(s: string)
    requires '&' !in s
    ensures PageNumber(s) == None
  {
    forall i | 0 <= i <= |s|
      ensures Probe(PageAt, s, i).None?
    {
      if i < |s| {
        assert s[i..][0] == s[i];
      }
    }
    FoundFirstNone(PageAt, s, PageNumber(s));
  }

  /** No match starts before an `&` that no `>` precedes: the digits of such
      a match would have to run across that `&`. */
  lemma NoMatchBefore(a: string, k: nat, j: nat)
    requires j < k < |a| && a[k] == '&'
    requires forall m :: 0 <= m < k ==> a[m] != '>'
    ensures MatchAt(a, j).None?
  {
  }

  /** The pattern read at `&page=n>` yields `n`. */
  lemma PageAtOwnNumber(n: nat)
    ensures PageAt("&page=" + DecimalString(n) + ">") == Some(n)
  {
    var d := DecimalString(n);
    var q := "&page=" + d + ">";
    assert q[6..] == d + ">";
    DigitRunStops(d, '>');
    assert (d + ">")[..|d|] == d;
    DecimalRoundTrip(n);
  }

  /** In `<url&page=n>`, with no `>` in `url`, the page number read back is `n`. */
  lemma {:induction false} PageOfLinkTarget(url: string, n: nat)
    requires '>' !in url
    ensures PageNumber("<" + url + "&page=" + DecimalString(n) + ">") == Some(n)
  {
    var p := "<" + url;
    var q := "&page=" + DecimalString(n) + ">";
    var a := p + q;
    assert a == "<" + url + "&page=" + DecimalString(n) + ">";
    assert a[|p|..] == q;
    PageAtOwnNumber(n);
    assert a[|p|] == '&';
    forall m | 0 <= m < |p|
      ensures a[m] != '>'
    {
      if m > 0 {
        assert a[m] == url[m - 1];
      }
    }
    forall j | 0 <= j < |p|
      ensures MatchAt(a, j).None?
    {
      NoMatchBefore(a, |p|, j);
    }
    PageNumberIsFirstMatch(a, |p|);
  }

  lemma StripKeeps(s: string)
    requires |s| > 0 && !IsSpace(s[0]) && !IsSpace(s[|s| - 1])
    ensures Strip(s) == s
  {
  }

  /** A segment written as `<url&page=n>; rel="rel"` parses back to `n`
      (URLs contain no `>` and no `;`). */
  lemma {:induction false} LinkSegmentRoundTrip(url: string, n: nat, rel: string)
    requires '>' !in url && ';' !in url
    ensures ParseLinkHeader(LinkSegment(url, n, rel), rel) == Some(n)
  {
    var target := "<" + url + "&page=" + DecimalString(n) + ">";
    var tail := " rel=\"" + rel + "\"";
    var seg := LinkSegment(url, n, rel);
    assert seg == target + ";" + tail;
    assert seg[|target| + 2..] == RelNeedle(rel);
    assert StartsWith(seg[|target| + 2..], RelNeedle(rel));
    assert ';' !in target by {
      assert ';' !in DecimalString(n);
    }
    CharSeparatorFree(target, ';');
    SplitAfter(target, ";", tail);
    StripKeeps(target);
    PageOfLinkTarget(url, n);
  }

  /** Only the first segment of the header decides. */
  lemma FirstSegmentDecides(first: string, rest: string)
    requires !Contains(first, ", ")
    ensures CheckPageLimit(Some(first + ", " + rest)) == ParseLinkHeader(first, "next")
  {
    PairSeparatorFree(first, ", ");
    SplitAfter(first, ", ", rest);
  }

  /** A header that starts with a `next` link yields its page. */
  lemma NextFirstYieldsPage(url: string, n: nat, rest: string)
    requires '>' !in url && ';' !in url && ',' !in url
    ensures CheckPageLimit(Some(LinkSegment(url, n, "next") + ", " + rest)) == Some(n)
  {
    var seg := LinkSegment(url, n, "next");
    assert ',' !in seg by {
      assert ',' !in DecimalString(n);
    }
    assert !Contains(seg, ", ") by {
      forall i | 0 <= i <= |seg|
        ensures !StartsWith(seg[i..], ", ")
      {
        if i < |seg| {
          assert seg[i..][0] == seg[i];
        }
      }
    }
    FirstSegmentDecides(seg, rest);
    LinkSegmentRoundTrip(url, n, "next");
  }

  /** A header whose first segment is not a `next` link yields no page, whatever follows:
      `<…&page=1>; rel="prev", <…&page=3>; rel="next"` stops the walk. */
  lemma NextAfterOtherSegmentIgnored(first: string, rest: string)
    requires !Contains(first, ", ") && !Contains(first, RelNeedle("next"))
    ensures CheckPageLimit(Some(first + ", " + rest)) == None
  {
    FirstSegmentDecides(first, rest);
  }

  /** The page must follow `&`: `<…?page=3>; rel="next"` yields no page. */
  lemma QueryFirstPageIgnored(url: string, n: nat)
    requires '&' !in url && ';' !in url
    ensures ParseLinkHeader("<" + url + "?page=" + DecimalString(n) + ">; rel=\"next\"", "next") == None
  {
    var target := "<" + url + "?page=" + DecimalString(n) + ">";
    var tail := " rel=\"next\"";
    assert "<" + url + "?page=" + DecimalString(n) + ">; rel=\"next\"" == target + ";" + tail;
    assert ';' !in target && '&' !in target by {
      assert ';' !in DecimalString(n) && '&' !in DecimalString(n);
    }
    CharSeparatorFree(target, ';');
    SplitAfter(target, ";", tail);
    StripKeeps(target);
    NoAmpersandNoPage(target);
  }

  // ========================================================= paging loop

  /** A page the fail-closed loops accept: status 200 and a body that decodes. */
  predicate PageOk<T>(r: Response<T>) {
    r.status == 200 && r.body.Some?
  }

  /** What the loop of `list_gist`, `list_commits` and `list_forks` collects
      from page `current` on, up to `limit`; `None` when a page fails, which
      makes the call return `[]`. */
  function CollectFrom<T>(fetch: int -> Response<T>, next: Option<string> -> Option<nat>, limit: int, current: int): Option<seq<T>>
    decreases limit - current
  {
    if current > limit then Some([])
    else
      var r := fetch(current);
      if !PageOk(r) then None
      else if next(r.link).None? then Some(r.body.value)
      else Prefixed(r.body.value, CollectFrom(fetch, next, limit, current + 1))
  }

  /** The pages that loop requests from page `current` on, in order. */
  function RequestedFrom<T>(fetch: int -> Response<T>, next: Option<string> -> Option<nat>, limit: int, current: int): seq<int>
    decreases limit - current
  {
    if current > limit then []
    else
      var r := fetch(current);
      if !PageOk(r) || next(r.link).None? then [current]
      else [current] + RequestedFrom(fetch, next, limit, current + 1)
  }

  /** The paging loop (`while current <= page_limit`) of `list_gist`,
      `list_commits` and `list_forks`; `fetch(p)` is the answer to the request
      for page `p`. */
  method WalkPages<T>(fetch: int -> Response<T>, next: Option<string> -> Option<nat>, pageLimit: int) returns (items: seq<T>, requested: seq<int>)
    ensures items == CollectFrom(fetch, next, pageLimit, 1).GetOr([])
    ensures requested == RequestedFrom(fetch, next, pageLimit, 1)
  {
    var pages: seq<T> := [];
    requested := [];
    var current := 1;
    PrefixedNothing(CollectFrom(fetch, next, pageLimit, current));
    while current <= pageLimit
      invariant CollectFrom(fetch, next, pageLimit, 1) == Prefixed(pages, CollectFrom(fetch, next, pageLimit, current))
      invariant RequestedFrom(fetch, next, pageLimit, 1) == requested + RequestedFrom(fetch, next, pageLimit, current)
      decreases pageLimit - current
    {
      var response := fetch(current);
      ghost var before := requested;
      requested := requested + [current];
      if response.status != 200 || response.body.None? {
        assert CollectFrom(fetch, next, pageLimit, current) == None;
        assert RequestedFrom(fetch, next, pageLimit, current) == [current];
        return [], requested;
      }
      var body := response.body.value;
      if next(response.link).None? {
        assert CollectFrom(fetch, next, pageLimit, current) == Some(body);
        assert RequestedFrom(fetch, next, pageLimit, current) == [current];
        return pages + body, requested;
      }
      ghost var rest := RequestedFrom(fetch, next, pageLimit, current + 1);
      assert RequestedFrom(fetch, next, pageLimit, current) == [current] + rest;
      assert before + ([current] + rest) == requested + rest;
      PrefixedAppend(pages, body, CollectFrom(fetch, next, pageLimit, current + 1));
      pages := pages + body;
      current := current + 1;
    }
    items := pages;
  }

  /** The concatenated bodies of `pages`, in order. */
  function Bodies<T>(fetch: int -> Response<T>, pages: seq<int>): seq<T>
    requires forall i :: 0 <= i < |pages| ==> fetch(pages[i]).body.Some?
  {
    if |pages| == 0 then []
    else fetch(pages[0]).body.value + Bodies(fetch, pages[1..])
  }

  /** Pages are requested one by one from `current` on, never past `limit`;
      every page but the last was accepted and pointed to a next page; and the
      last one either failed, had no next page, or was `limit`. */
  lemma {:induction false} RequestedPagesInOrder<T>(fetch: int -> Response<T>, next: Option<string> -> Option<nat>, limit: int, current: int)
    ensures var req := RequestedFrom(fetch, next, limit, current);
      && |req| <= (if limit < current then 0 else limit - current + 1)
      && (forall i :: 0 <= i < |req| ==> req[i] == current + i)
      && (forall i :: 0 <= i < |req| - 1 ==> PageOk(fetch(req[i])) && next(fetch(req[i]).link).Some?)
      && (|req| > 0 ==> var last := fetch(req[|req| - 1]);
            !PageOk(last) || next(last.link).None? || req[|req| - 1] == limit)
    decreases limit - current
  {
    if current <= limit {
      var r := fetch(current);
      if PageOk(r) && next(r.link).Some? {
        RequestedPagesInOrder(fetch, next, limit, current + 1);
      }
    }
  }

  /** Fail-closed: the loop gives up (and the call returns `[]`) exactly when
      the last page it requested failed; otherwise it returns the bodies of
      all requested pages, concatenated in page order. */
  lemma {:induction false} CollectedPages<T>(fetch: int -> Response<T>, next: Option<string> -> Option<nat>, limit: int, current: int)
    ensures var req := RequestedFrom(fetch, next, limit, current);
      && (CollectFrom(fetch, next, limit, current).None? <==> |req| > 0 && !PageOk(fetch(req[|req| - 1])))
      && (CollectFrom(fetch, next, limit, current).Some? ==>
            (forall i :: 0 <= i < |req| ==> fetch(req[i]).body.Some?) &&
            CollectFrom(fetch, next, limit, current).value == Bodies(fetch, req))
    decreases limit - current
  {
    if current <= limit {
      var r := fetch(current);
      if PageOk(r) && next(r.link).Some? {
        CollectedPages(fetch, next, limit, current + 1);
        var req := RequestedFrom(fetch, next, limit, current);
        assert req[1..] == RequestedFrom(fetch, next, limit, current + 1);
      }
    }
  }

  /** When every page up to the limit answers 200 and links to a next page,
      exactly the pages `1..limit` are fetched and their bodies concatenated:
      with three such pages and a limit of 2, the third is never requested. */
  lemma {:induction false} FullPagesUpToLimit<T>(fetch: int -> Response<T>, next: Option<string> -> Option<nat>, limit: int, current: int)
    requires current >= 1
    requires forall p :: current <= p <= limit ==> PageOk(fetch(p)) && next(fetch(p).link).Some?
    ensures var req := RequestedFrom(fetch, next, limit, current);
      && |req| == (if limit < current then 0 else limit - current + 1)
      && (forall i :: 0 <= i < |req| ==> req[i] == current + i)
      && (forall i :: 0 <= i < |req| ==> fetch(req[i]).body.Some?)
      && CollectFrom(fetch, next, limit, current) == Some(Bodies(fetch, req))
    decreases limit - current
  {
    if current <= limit {
      FullPagesUpToLimit(fetch, next, limit, current + 1);
      var req := RequestedFrom(fetch, next, limit, current);
      assert req[1..] == RequestedFrom(fetch, next, limit, current + 1);
    }
  }

  // ======================================================== get_email_addr

  /** An entry of the `/user/emails` listing; `None` is a missing key (or, for
      `email`, a JSON null: both make the call return `None`). */
  datatype EmailEntry = EmailEntry(primary: Option<bool>, email: Option<string>)

  /** How the scan of one page of addresses ends: at a primary entry, at an
      entry without `primary` (a caught `KeyError`), or at the end of the page. */
  datatype PrimaryScan = Primary(address: Option<string>) | Broken | NoPrimary

  /** The inner `for email in response.json()` loop of `get_email_addr`. */
  function FirstPrimary(entries: seq<EmailEntry>): (r: PrimaryScan)
    ensures r.Primary? ==> exists i :: 0 <= i < |entries| && entries[i].primary == Some(true) &&
                             entries[i].email == r.address &&
                             forall j :: 0 <= j < i ==> entries[j].primary == Some(false)
    ensures r.Broken? ==> exists i :: 0 <= i < |entries| && entries[i].primary.None? &&
                            forall j :: 0 <= j < i ==> entries[j].primary == Some(false)
    ensures r.NoPrimary? <==> forall i :: 0 <= i < |entries| ==> entries[i].primary == Some(false)
    decreases |entries|
  {
    if |entries| == 0 then NoPrimary
    else
      match entries[0].primary
      case None => Broken
      case Some(true) => Primary(entries[0].email)
      case Some(false) =>
        var r := FirstPrimary(entries[1..]);
        assert forall i :: 0 <= i < |entries| - 1 ==> entries[1..][i] == entries[i + 1];
        r
  }

  lemma FirstPrimarySkips(entries: seq<EmailEntry>, i: nat)
    requires i <= |entries|
    requires forall j :: 0 <= j < i ==> entries[j].primary == Some(false)
    ensures FirstPrimary(entries) == FirstPrimary(entries[i..])
    decreases i
  {
    if i > 0 {
      FirstPrimarySkips(entries[1..], i - 1);
      assert entries[1..][i - 1..] == entries[i..];
    }
  }

  /** What `get_email_addr` returns, scanning pages from `current` on. */
  function EmailFrom(fetch: int -> Response<EmailEntry>, next: Option<string> -> Option<nat>, limit: int, current: int): (r: Option<string>)
    ensures r.Some? ==> exists p :: current <= p <= limit && PageOk(fetch(p)) &&
                          FirstPrimary(fetch(p).body.value) == Primary(r) &&
                          forall q :: current <= q < p ==> PageOk(fetch(q)) && FirstPrimary(fetch(q).body.value) == NoPrimary
    decreases limit - current
  {
    if current > limit then None
    else
      var response := fetch(current);
      if !PageOk(response) then None
      else
        match FirstPrimary(response.body.value)
        case Primary(address) => address
        case Broken => None
        case NoPrimary => if next(response.link).None? then None else EmailFrom(fetch, next, limit, current + 1)
  }

  /** The first primary entry's address is returned when every earlier page
      is a 200 without a primary entry that links to a next page. */
  lemma {:induction false} EmailFound(fetch: int -> Response<EmailEntry>, next: Option<string> -> Option<nat>, limit: int, current: int, p: int, address: Option<string>)
    requires current <= p <= limit
    requires forall q :: current <= q < p ==>
      PageOk(fetch(q)) && FirstPrimary(fetch(q).body.value) == NoPrimary && next(fetch(q).link).Some?
    requires PageOk(fetch(p)) && FirstPrimary(fetch(p).body.value) == Primary(address)
    ensures EmailFrom(fetch, next, limit, current) == address
    decreases p - current
  {
    if current < p {
      EmailFound(fetch, next, limit, current + 1, p, address);
    }
  }

  /** After such pages, `None` is returned when the next page fails, holds an
      entry without `primary` before any primary one, or holds no primary
      entry and is the last page (no next link, or the page limit). */
  lemma {:induction false} EmailMissed(fetch: int -> Response<EmailEntry>, next: Option<string> -> Option<nat>, limit: int, current: int, p: int)
    requires current <= p <= limit
    requires forall q :: current <= q < p ==>
      PageOk(fetch(q)) && FirstPrimary(fetch(q).body.value) == NoPrimary && next(fetch(q).link).Some?
    requires || !PageOk(fetch(p))
             || FirstPrimary(fetch(p).body.value) == Broken
             || (FirstPrimary(fetch(p).body.value) == NoPrimary && (next(fetch(p).link).None? || p == limit))
    ensures EmailFrom(fetch, next, limit, current) == None
    decreases p - current
  {
    if current < p {
      EmailMissed(fetch, next, limit, current + 1, p);
    }
  }

  /** The request `get_email_addr` sends (before its `page` parameter). */
  function EmailsRequest(token: string, api: Option<string>, perPage: int): Request {
    Request(Join([ApiBase(api), "user", "emails"], "/"),
            map["per_page" := NumParam(perPage)],
            map["Accept" := EmailAccept, "Authorization" := "token " + token])
  }

  /** The inner `for email in response.json()` loop. */
  method ScanEmails(entries: seq<EmailEntry>) returns (r: PrimaryScan)
    ensures r == FirstPrimary(entries)
  {
    var i := 0;
    while i < |entries|
      invariant 0 <= i <= |entries|
      invariant forall j :: 0 <= j < i ==> entries[j].primary == Some(false)
    {
      if entries[i].primary.None? {
        FirstPrimarySkips(entries, i);
        return Broken;
      }
      if entries[i].primary.value {
        FirstPrimarySkips(entries, i);
        return Primary(entries[i].email);
      }
      i := i + 1;
    }
    FirstPrimarySkips(entries, i);
    return NoPrimary;
  }

  /** The `while current <= page_limit` loop of `get_email_addr`; `next`
      reads a page's `Link` header. */
  method WalkEmails(fetch: int -> Response<EmailEntry>, next: Option<string> -> Option<nat>, pageLimit: int)
    returns (email: Option<string>)
    ensures email == EmailFrom(fetch, next, pageLimit, 1)
  {
    var current := 1;
    while current <= pageLimit
      invariant EmailFrom(fetch, next, pageLimit, 1) == EmailFrom(fetch, next, pageLimit, current)
      decreases pageLimit - current
    {
      var response := fetch(current);
      if response.status != 200 || response.body.None? {
        return None;
      }
      var scan := ScanEmails(response.body.value);
      if scan.Primary? {
        return scan.address;
      }
      if scan.Broken? || next(response.link).None? {
        return None;
      }
      current := current + 1;
    }
    return None;
  }

  /** `get_email_addr(token, api=…, per_page=…, page_limit=…)`. */
  method GetEmailAddr(server: Request -> Response<EmailEntry>, token: string, api: Option<string>, perPage: int, pageLimit: int)
    returns (email: Option<string>)
    ensures email == EmailFrom(Pager(server, EmailsRequest(token, api, perPage)), CheckPageLimit, pageLimit, 1)
  {
    email := WalkEmails(Pager(server, EmailsRequest(token, api, perPage)), CheckPageLimit, pageLimit);
  }

  // ========================================================= URL selection

  /** `GITHUB_API_URL if api is None else api.rstrip('/')`. */
  function ApiBase(api: Option<string>): (base: string)
    ensures api.None? ==> base == GithubApiUrl
    ensures api.Some? ==> StartsWith(api.value, base) && (|base| == 0 || base[|base| - 1] != '/')
    ensures api.Some? ==> forall i :: |base| <= i < |api.value| ==> api.value[i] == '/'
  {
    if api.None? then GithubApiUrl else TrimRight(api.value, '/')
  }

  /** The `'/'.join` calls of `list_gist`, written out. */
  lemma ListUrlShapes(base: string, user: string)
    ensures Join([base, "gists", "public"], "/") == base + "/gists/public"
    ensures Join([base, "gists"], "/") == base + "/gists"
    ensures Join([base, "users", user, "gists"], "/") == base + "/users/" + user + "/gists"
    ensures Join([base + "/gists", "starred"], "/") == base + "/gists/starred"
  {
    JoinSmall(base, "gists", "public", "", "/");
    JoinSmall(base, "users", user, "gists", "/");
    JoinSmall(base + "/gists", "starred", "", "", "/");
    assert base + "/" + "gists" == base + "/gists";
    assert base + "/" + "gists" + "/" + "public" == base + "/gists/public";
    assert base + "/gists" + "/" + "starred" == base + "/gists/starred";
    assert base + "/" + "users" + "/" + user + "/" + "gists" == base + "/users/" + user + "/gists";
  }

  /** The listing URL of `list_gist`; `None` when `starred` makes it return `[]`
      before any request (starring needs a token and no user). */
  function ListGistUrl(api: Option<string>, token: Option<string>, user: Option<string>, starred: bool): (url: Option<string>)
    ensures url.None? <==> starred && (token.None? || user.Some?)
    ensures user.Some? && url.Some? ==> url.value == ApiBase(api) + "/users/" + user.value + "/gists"
    ensures user.None? && token.None? && url.Some? ==> url.value == ApiBase(api) + "/gists/public"
    ensures user.None? && token.Some? ==> url == Some(ApiBase(api) + if starred then "/gists/starred" else "/gists")
  {
    var base := ApiBase(api);
    ListUrlShapes(base, if user.Some? then user.value else "");
    var path :=
      if user.None? then
        if token.None? then Join([base, "gists", "public"], "/") else Join([base, "gists"], "/")
      else Join([base, "users", user.value, "gists"], "/");
    if !starred then Some(path)
    else if token.Some? && user.None? then Some(Join([path, "starred"], "/"))
    else None
  }

  /** The URL of `list_commits` (`leaf == "commits"`) and `list_forks` (`leaf == "forks"`). */
  function GistPagesUrl(api: Option<string>, gistId: string, leaf: string): (url: string)
    ensures url == ApiBase(api) + "/gists/" + gistId + "/" + leaf
  {
    JoinSmall(ApiBase(api), "gists", gistId, leaf, "/");
    Join([ApiBase(api), "gists", gistId, leaf], "/")
  }

  /** The query parameters of `list_gist`: `per_page`, and `since` when given. */
  function ListParams(perPage: int, since: Option<string>): (params: map<string, Param>)
    ensures "per_page" in params && params["per_page"] == NumParam(perPage)
    ensures "since" in params <==> since.Some?
    ensures since.Some? ==> params["since"] == TextParam(since.value)
    ensures params.Keys <= {"per_page", "since"}
  {
    if since.Some? then map["per_page" := NumParam(perPage), "since" := TextParam(since.value)]
    else map["per_page" := NumParam(perPage)]
  }

  // ============================================================ GIST_HEADER

  /** The header dictionary after a call that was given `token`. */
  function Authorized(fields: map<string, string>, token: Option<string>): map<string, string> {
    if token.Some? then fields["Authorization" := "token " + token.value] else fields
  }

  /** The header dictionary after a series of calls given `tokens`, in order. */
  function AuthorizedAll(fields: map<string, string>, tokens: seq<Option<string>>): map<string, string>
    decreases |tokens|
  {
    if |tokens| == 0 then fields
    else AuthorizedAll(Authorized(fields, tokens[0]), tokens[1..])
  }

  /** Once a call has passed a token, every later call that passes none still
      sends `Authorization: token <that token>`: nothing removes it. */
  lemma {:induction false} TokenOutlivesItsCall(fields: map<string, string>, tokens: seq<Option<string>>, i: nat)
    requires i < |tokens| && tokens[i].Some?
    requires forall j :: i < j < |tokens| ==> tokens[j].None?
    ensures "Authorization" in AuthorizedAll(fields, tokens)
    ensures AuthorizedAll(fields, tokens)["Authorization"] == "token " + tokens[i].value
    decreases |tokens|
  {
    if i == 0 {
      NoTokenNoChange(Authorized(fields, tokens[0]), tokens[1..]);
    } else {
      TokenOutlivesItsCall(Authorized(fields, tokens[0]), tokens[1..], i - 1);
    }
  }

  lemma {:induction false} NoTokenNoChange(fields: map<string, string>, tokens: seq<Option<string>>)
    requires forall j :: 0 <= j < |tokens| ==> tokens[j].None?
    ensures AuthorizedAll(fields, tokens) == fields
    decreases |tokens|
  {
    if |tokens| > 0 {
      NoTokenNoChange(fields, tokens[1..]);
    }
  }

  /** The module-level `GIST_HEADER` dictionary and the listing calls that
      read and update it. */
  class GistHeader {
    var fields: map<string, string>

    constructor ()
      ensures fields == map["Accept" := GistAccept]
    {
      fields := map["Accept" := GistAccept];
    }

    /** `if token is not None: GIST_HEADER.update({'Authorization': 'token ' + token})`. */
    method Authorize(token: Option<string>)
      modifies this
      ensures fields == Authorized(old(fields), token)
    {
      if token.Some? {
        fields := fields["Authorization" := "token " + token.value];
      }
    }

    /** `list_gist(token, user, api=…, since=…, starred=…, per_page=…, page_limit=…)`. */
    method ListGist<T>(server: Request -> Response<T>, token: Option<string>, user: Option<string>,
                       api: Option<string>, since: Option<string>, starred: bool, perPage: int, pageLimit: int)
      returns (gists: seq<T>, requested: seq<int>)
      modifies this
      ensures fields == Authorized(old(fields), token)
      ensures ListGistUrl(api, token, user, starred).None? ==> gists == [] && requested == []
      ensures ListGistUrl(api, token, user, starred).Some? ==>
        var fetch := Pager(server, Request(ListGistUrl(api, token, user, starred).value, ListParams(perPage, since), fields));
        gists == CollectFrom(fetch, CheckPageLimit, pageLimit, 1).GetOr([]) &&
        requested == RequestedFrom(fetch, CheckPageLimit, pageLimit, 1)
    {
      Authorize(token);
      var url := ListGistUrl(api, token, user, starred);
      if url.None? {
        return [], [];
      }
      var request := Request(url.value, ListParams(perPage, since), fields);
      gists, requested := WalkPages(Pager(server, request), CheckPageLimit, pageLimit);
    }

    /** `list_commits(token, gist_id, …)` (`leaf == "commits"`) and
        `list_forks(token, gist_id, …)` (`leaf == "forks"`). */
    method ListGistPages<T>(server: Request -> Response<T>, token: Option<string>, gistId: string, leaf: string,
                            api: Option<string>, perPage: int, pageLimit: int)
      returns (items: seq<T>, requested: seq<int>)
      requires leaf == "commits" || leaf == "forks"
      modifies this
      ensures fields == Authorized(old(fields), token)
      ensures var fetch := Pager(server, Request(GistPagesUrl(api, gistId, leaf), map["per_page" := NumParam(perPage)], fields));
        items == CollectFrom(fetch, CheckPageLimit, pageLimit, 1).GetOr([]) &&
        requested == RequestedFrom(fetch, CheckPageLimit, pageLimit, 1)
    {
      Authorize(token);
      var request := Request(GistPagesUrl(api, gistId, leaf), map["per_page" := NumParam(perPage)], fields);
      items, requested := WalkPages(Pager(server, request), CheckPageLimit, pageLimit);
    }
  }

  /** A call without a token, made after one with a token, still sends that
      token: the second `list_gist` below requests its pages with
      `Authorization: token <t>`. */
  method TokenLeaksIntoLaterCall<T>(server: Request -> Response<T>, t: string, pageLimit: int)
    returns (sent: map<string, string>)
    ensures "Authorization" in sent && sent["Authorization"] == "token " + t
  {
    var header := new GistHeader();
    var _, _ := header.ListGist(server, Some(t), None, None, None, false, 100, pageLimit);
    var _, _ := header.ListGist(server, None, None, None, None, false, 100, pageLimit);
    sent := header.fields;
  }
}
