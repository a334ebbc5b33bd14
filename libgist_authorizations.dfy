/** The OAuth authorization helpers of the `libgist` package. They send the
    same requests as the `gister` copy, but build the URL from whether `api`
    is given, keep only notes equal to `gist-shell`, and let decoding and
    lookup errors escape. */
module LibgistAuthorizations {
  import opened Outcomes
  import opened Text
  import opened GisterAuthorizations

  // ================================================= github_auth_request

  /** The URL `github_auth_request` builds: `None` when `api` is `None`
      (joining that `None` with a `uri` raises `TypeError`); otherwise the
      public `authorizations` endpoint, never the value of `api`. */
  function RequestUrl(uri: Option<string>, api: Option<string>): (u: Outcome<Option<string>>)
    ensures u.Raised? <==> api.None? && uri.Some?
    ensures u == Returned(None) <==> api.None? && uri.None?
    ensures api.Some? && uri.None? ==> u == Returned(Some(AuthorizationsUrl))
    ensures api.Some? && uri.Some? ==> u == Returned(Some(AuthorizationsUrl + "/" + uri.value))
  {
    var url := if api.Some? then Some(AuthorizationsUrl) else None;
    if uri.None? then Returned(url)
    else if url.None? then Raised
    else
      JoinSmall(url.value, uri.value, "", "", "/");
      Returned(Some(Join([url.value, uri.value], "/")))
  }

  /** The request sent: `requests` refuses a `None` URL by raising
      (`MissingSchema`), so every call without `api` raises; with `api` the
      request is the one the `gister` copy sends. */
  function SendRequest(verb: Verb, uri: Option<string>, basic: (string, string), otp: Option<string>, api: Option<string>, body: Body): (r: Outcome<AuthRequest>)
    ensures r.Raised? <==> api.None?
    ensures r.Returned? ==> r.value == GithubAuthRequest(verb, uri, basic, otp, api, body)
  {
    var url := RequestUrl(uri, api);
    if url.Raised? || url.value.None? then Raised
    else Returned(AuthRequest(verb, url.value.value, basic, AuthHeaders(otp), body))
  }

  // ================================================= create_authorization

  /** `create_authorization(auth, otp, api)`: the payload's note is always
      exactly `gist-shell` and its scopes `["gist"]`; the decoded body is
      returned, and a body that does not decode raises. */
  function CreateAuthorization<T>(send: AuthRequest -> Reply<T>, basic: (string, string), otp: Option<string>, api: Option<string>,
                                  sha1: string -> string, user: string, fqdn: string, seconds: nat): (r: Outcome<T>)
    ensures var request := SendRequest(Post, None, basic, otp, api, NewAuthorization(AppNote, NoteUrl, ["gist"], Fingerprint(sha1, user, fqdn, seconds)));
      (r.Returned? <==> request.Returned? && send(request.value).body.Some?) &&
      (r.Returned? ==> send(request.value).body == Some(r.value) && request.value.body.note == "gist-shell" && request.value.body.scopes == ["gist"])
  {
    var request := SendRequest(Post, None, basic, otp, api, NewAuthorization(AppNote, NoteUrl, ["gist"], Fingerprint(sha1, user, fqdn, seconds)));
    if request.Raised? then Raised
    else
      var reply := send(request.value);
      if reply.body.None? then Raised else Returned(reply.body.value)
  }

  // ==================================================== get_authorization

  /** `str(authorization['note']) == 'gist-shell'`. */
  predicate Exact(r: AuthRecord)
    requires Readable(r.note)
  {
    NoteText(r.note) == AppNote
  }

  /** The records whose note is exactly `gist-shell`, in their order. */
  function Exactly(records: seq<AuthRecord>): (kept: seq<AuthRecord>)
    requires NotesReadable(records)
    ensures |kept| <= |records|
    decreases |records|
  {
    if |records| == 0 then []
    else
      var rest := Exactly(records[1..]);
      if Exact(records[0]) then [records[0]] + rest else rest
  }

  /** An authorization is kept exactly when it is among `records` and passes the note test. */
  lemma {:induction false} ExactlyKeeps(records: seq<AuthRecord>)
    requires NotesReadable(records)
    ensures forall r :: r in Exactly(records) ==> r in records && Exact(r)
    ensures forall r :: r in records && Exact(r) ==> r in Exactly(records)
    decreases |records|
  {
    if |records| > 0 {
      ExactlyKeeps(records[1..]);
      assert forall r :: r in records[1..] ==> r in records;
      assert forall r :: r in records ==> r == records[0] || r in records[1..];
    }
  }

  lemma {:induction false} ExactlyAppend(records: seq<AuthRecord>, r: AuthRecord)
    requires NotesReadable(records) && Readable(r.note)
    ensures NotesReadable(records + [r])
    ensures Exactly(records + [r]) == Exactly(records) + if Exact(r) then [r] else []
    decreases |records|
  {
    if |records| > 0 {
      assert (records + [r])[1..] == records[1..] + [r];
      ExactlyAppend(records[1..], r);
    }
  }

  /** The listing branch: `[]` for a non-200 status; a body that does not
      decode or an item without a note raises. */
  function ExactListing(reply: Reply<seq<AuthRecord>>): Outcome<seq<AuthRecord>> {
    if reply.status != 200 then Returned([])
    else if reply.body.None? || !NotesReadable(reply.body.value) then Raised
    else Returned(Exactly(reply.body.value))
  }

  /** A listed note holding a character outside ASCII makes `str` raise, so
      the listing raises, whatever the other items hold. */
  lemma NonAsciiNoteRaises(records: seq<AuthRecord>, k: nat)
    requires k < |records| && records[k].note.Text? && !Ascii(records[k].note.s)
    ensures ExactListing(Reply(200, Some(records))) == Raised
  {
  }

  /** The outcome of the request for one id: raised when the request cannot
      be sent, otherwise the response. */
  function SentById(single: AuthRequest -> Reply<AuthRecord>, basic: (string, string), otp: Option<string>, api: Option<string>): string -> Outcome<Reply<AuthRecord>> {
    (id: string) =>
      var request := SendRequest(Get, Some(id), basic, otp, api, EmptyObject);
      if request.Raised? then Raised else Returned(single(request.value))
  }

  /** A request for one id that raises: it cannot be sent, or it answers 200
      with a body that does not decode or has no note. */
  predicate Fails(sent: Outcome<Reply<AuthRecord>>) {
    sent.Raised? || Broken(sent.value)
  }

  /** The `for auth_id in auth_ids` loop; `send(id)` is the outcome of the
      request for `id`. */
  function ExactById(send: string -> Outcome<Reply<AuthRecord>>, ids: seq<string>): (r: Outcome<seq<AuthRecord>>)
    ensures r.Returned? ==> |r.value| <= |ids|
    decreases |ids|
  {
    if |ids| == 0 then Returned([])
    else
      var sent := send(ids[0]);
      if Fails(sent) then Raised
      else if sent.value.status != 200 then ExactById(send, ids[1..])
      else Prepend(if Exact(sent.value.body.value) then [sent.value.body.value] else [], ExactById(send, ids[1..]))
  }

  /** The decoded bodies of the 200 responses, in id order. */
  function Delivered(send: string -> Outcome<Reply<AuthRecord>>, ids: seq<string>): (records: seq<AuthRecord>)
    requires forall i :: 0 <= i < |ids| ==> !Fails(send(ids[i]))
    ensures NotesReadable(records)
    decreases |ids|
  {
    if |ids| == 0 then []
    else
      var sent := send(ids[0]);
      assert !Fails(sent);
      assert forall i :: 0 <= i < |ids| - 1 ==> ids[1..][i] == ids[i + 1];
      var rest := Delivered(send, ids[1..]);
      if sent.value.status == 200 then
        assert forall i :: 1 <= i <= |rest| ==> ([sent.value.body.value] + rest)[i] == rest[i - 1];
        [sent.value.body.value] + rest
      else rest
  }

  /** By id, the call raises exactly when some id's request raises;
      otherwise it keeps, in id order, the answered authorizations whose note
      is exactly `gist-shell`, skipping non-200 ids. */
  lemma {:induction false} ExactByIdFilters(send: string -> Outcome<Reply<AuthRecord>>, ids: seq<string>)
    ensures ExactById(send, ids).Raised? <==> exists i :: 0 <= i < |ids| && Fails(send(ids[i]))
    ensures ExactById(send, ids).Returned? ==>
      (forall i :: 0 <= i < |ids| ==> !Fails(send(ids[i]))) && ExactById(send, ids).value == Exactly(Delivered(send, ids))
    decreases |ids|
  {
    if |ids| > 0 {
      ExactByIdFilters(send, ids[1..]);
      assert forall i :: 1 <= i < |ids| ==> ids[1..][i - 1] == ids[i];
      if !Fails(send(ids[0])) && ExactById(send, ids[1..]).Returned? {
        var sent := send(ids[0]);
        if sent.value.status == 200 {
          assert ([sent.value.body.value] + Delivered(send, ids[1..]))[1..] == Delivered(send, ids[1..]);
        }
      }
    }
  }

  /** Without `api` no request can be sent: asking by id raises at the first id. */
  lemma NoApiRaises(single: AuthRequest -> Reply<AuthRecord>, basic: (string, string), otp: Option<string>, ids: seq<string>)
    requires |ids| > 0
    ensures ExactById(SentById(single, basic, otp, None), ids) == Raised
  {
    assert SendRequest(Get, Some(ids[0]), basic, otp, None, EmptyObject).Raised?;
  }

  /** `get_authorization(auth, auth_ids, otp, api)`: one listing request for
      `None` or empty ids, otherwise one request per id. */
  function Authorizations(listing: AuthRequest -> Reply<seq<AuthRecord>>, single: AuthRequest -> Reply<AuthRecord>,
                          basic: (string, string), ids: Option<seq<string>>, otp: Option<string>, api: Option<string>): Outcome<seq<AuthRecord>>
  {
    if ids.None? || |ids.value| == 0 then
      var request := SendRequest(Get, None, basic, otp, api, EmptyObject);
      if request.Raised? then Raised else ExactListing(listing(request.value))
    else ExactById(SentById(single, basic, otp, api), ids.value)
  }

  /** The `for authorization in data` loop of the listing branch. */
  method KeepListed(reply: Reply<seq<AuthRecord>>) returns (result: Outcome<seq<AuthRecord>>)
    ensures result == ExactListing(reply)
  {
    if reply.status != 200 {
      return Returned([]);
    }
    if reply.body.None? {
      return Raised;
    }
    var items := reply.body.value;
    var kept: seq<AuthRecord> := [];
    var i := 0;
    while i < |items|
      invariant 0 <= i <= |items|
      invariant NotesReadable(items[..i])
      invariant kept == Exactly(items[..i])
    {
      if !Readable(items[i].note) {
        assert !NotesReadable(items);
        return Raised;
      }
      assert items[..i + 1] == items[..i] + [items[i]];
      ExactlyAppend(items[..i], items[i]);
      if Exact(items[i]) {
        kept := kept + [items[i]];
      }
      i := i + 1;
    }
    assert items[..i] == items;
    assert ExactListing(reply) == Returned(Exactly(items));
    return Returned(kept);
  }

  /** The `for auth_id in auth_ids` loop. */
  method KeepById(send: string -> Outcome<Reply<AuthRecord>>, ids: seq<string>) returns (result: Outcome<seq<AuthRecord>>)
    ensures result == ExactById(send, ids)
  {
    var kept: seq<AuthRecord> := [];
    var i := 0;
    PrependNothing(ExactById(send, ids));
    while i < |ids|
      invariant 0 <= i <= |ids|
      invariant ExactById(send, ids) == Prepend(kept, ExactById(send, ids[i..]))
    {
      var sent := send(ids[i]);
      assert ids[i..][0] == ids[i];
      assert ids[i..][1..] == ids[i + 1..];
      if sent.Raised? {
        return Raised;
      }
      var reply := sent.value;
      if reply.status == 200 {
        if reply.body.None? || !Readable(reply.body.value.note) {
          return Raised;
        }
        if Exact(reply.body.value) {
          PrependAppend(kept, [reply.body.value], ExactById(send, ids[i + 1..]));
          kept := kept + [reply.body.value];
        } else {
          PrependNothing(ExactById(send, ids[i + 1..]));
        }
      }
      i := i + 1;
    }
    assert kept + [] == kept;
    return Returned(kept);
  }

  method GetAuthorization(listing: AuthRequest -> Reply<seq<AuthRecord>>, single: AuthRequest -> Reply<AuthRecord>,
                          basic: (string, string), ids: Option<seq<string>>, otp: Option<string>, api: Option<string>)
    returns (result: Outcome<seq<AuthRecord>>)
    ensures result == Authorizations(listing, single, basic, ids, otp, api)
  {
    if ids.None? || |ids.value| == 0 {
      var request := SendRequest(Get, None, basic, otp, api, EmptyObject);
      if request.Raised? {
        return Raised;
      }
      result := KeepListed(listing(request.value));
    } else {
      result := KeepById(SentById(single, basic, otp, api), ids.value);
    }
  }

  // ================================================= delete_authorization

  /** The delete request for one id. */
  function DeleteRequest(basic: (string, string), otp: Option<string>, api: Option<string>): string -> Outcome<AuthRequest> {
    (uri: string) => SendRequest(Delete, Some(uri), basic, otp, api, EmptyObject)
  }

  /** The id strings `str(authorization['id'])` of the authorizations, in order. */
  function IdStrings(targets: seq<AuthRecord>): (uris: seq<string>)
    ensures |uris| == |targets|
    ensures forall i :: 0 <= i < |targets| ==> uris[i] == DecimalString(targets[i].id)
  {
    seq(|targets|, i requires 0 <= i < |targets| => DecimalString(targets[i].id))
  }

  /** The `for authorization in authorizations` loop: one request per id, in
      order; the loop raises at the first request that cannot be sent, and
      `deletes` are the requests sent before it. */
  method SendDeletes(send: string -> Outcome<AuthRequest>, uris: seq<string>) returns (raised: bool, deletes: seq<AuthRequest>)
    ensures raised <==> exists j :: 0 <= j < |uris| && send(uris[j]).Raised?
    ensures |deletes| <= |uris| && forall j :: 0 <= j < |deletes| ==> Returned(deletes[j]) == send(uris[j])
    ensures raised ==> |deletes| < |uris| && send(uris[|deletes|]).Raised?
    ensures !raised ==> |deletes| == |uris|
  {
    deletes := [];
    var i := 0;
    while i < |uris|
      invariant 0 <= i <= |uris| && |deletes| == i
      invariant forall j :: 0 <= j < i ==> Returned(deletes[j]) == send(uris[j])
    {
      var request := send(uris[i]);
      if request.Raised? {
        return true, deletes;
      }
      deletes := deletes + [request.value];
      i := i + 1;
    }
    raised := false;
  }

  /** `delete_authorization(auth, auth_ids, otp, api)`: `deletes` are the
      requests sent, one per authorization `get_authorization` returns, in
      that order; their responses are ignored. Without `api` the first
      delete raises. */
  method DeleteAuthorization(listing: AuthRequest -> Reply<seq<AuthRecord>>, single: AuthRequest -> Reply<AuthRecord>,
                             basic: (string, string), ids: Option<seq<string>>, otp: Option<string>, api: Option<string>)
    returns (raised: bool, deletes: seq<AuthRequest>)
    ensures var targets := Authorizations(listing, single, basic, ids, otp, api);
      && (raised <==> targets.Raised? || (|targets.value| > 0 && api.None?))
      && (raised ==> deletes == [])
      && (!raised ==>
            && |deletes| == |targets.value|
            && forall i :: 0 <= i < |deletes| ==>
                 deletes[i] == GithubAuthRequest(Delete, Some(DecimalString(targets.value[i].id)), basic, otp, api, EmptyObject))
  {
    var found := GetAuthorization(listing, single, basic, ids, otp, api);
    if found.Raised? {
      return true, [];
    }
    var uris := IdStrings(found.value);
    raised, deletes := SendDeletes(DeleteRequest(basic, otp, api), uris);
    if api.None? && |uris| > 0 {
      assert DeleteRequest(basic, otp, api)(uris[0]).Raised?;
    }
  }

  // ============================================== the two copies compared

  /** An authorization this copy keeps is also kept by the `gister` copy,
      whose test is a substring match. */
  lemma {:induction false} ExactIsMentioned(records: seq<AuthRecord>)
    requires NotesReadable(records)
    ensures forall r :: r in Exactly(records) ==> r in Mentioning(records)
  {
    ExactlyKeeps(records);
    MentioningKeeps(records);
    forall r | r in Exactly(records)
      ensures r in Mentioning(records)
    {
      assert NoteText(r.note)[0..] == NoteText(r.note);
      assert StartsWith(NoteText(r.note)[0..], AppNote);
    }
  }

  /** An authorization the `gister` copy created with a note of two or more
      characters is not found by this copy, which wants the note `gist-shell`
      itself; the `gister` copy finds it. */
  lemma GisterNoteNotExact(note: string, id: nat)
    requires |note| > 1 && Ascii(note)
    ensures var r := AuthRecord(id, Text(NormaliseNote(note)));
      Readable(r.note) && !Exact(r) && Mentions(r)
  {
    NoteKeepsAppName(note);
    NormalisedNoteAscii(note);
  }
}
