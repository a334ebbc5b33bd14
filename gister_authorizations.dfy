/** The OAuth authorization helpers of the `gister` package: the
    fingerprint, the request every call sends, the token note, and the
    listing and deletion of the authorizations this tool created. */
module GisterAuthorizations {
  import opened Outcomes
  import opened Text

  const AuthorizationsUrl := "https://api.github.com/authorizations"
  const DamageAccept := "application/vnd.github.damage-preview+json"
  const NoteUrl := "https://github.com/clickyotomy/gist-shell"
  const AppNote := "gist-shell"

  datatype Verb = Get | Post | Delete

  /** The JSON a request carries: `'{}'`, or the payload of a new authorization. */
  datatype Body = EmptyObject | NewAuthorization(note: string, noteUrl: string, scopes: seq<string>, fingerprint: string)

  /** One call of `github_auth_request`; `basic` is the (username, password) pair. */
  datatype AuthRequest = AuthRequest(verb: Verb, url: string, basic: (string, string), headers: map<string, string>, body: Body)

  /** A response: its status and its decoded JSON, `None` when it does not decode. */
  datatype Reply<T> = Reply(status: int, body: Option<T>)

  /** The `note` of an authorization: missing, JSON null, or text (a decoded
      JSON string, which Python 2 holds as `unicode`). */
  datatype Note = Missing | Null | Text(s: string)

  /** The parts of an authorization the helpers read. */
  datatype AuthRecord = AuthRecord(id: nat, note: Note)

  /** `str(data['note'])` succeeds: the key is present (else `KeyError`), and
      the note is null or ASCII text (Python 2's `str` of any other unicode
      text raises `UnicodeEncodeError`, a `ValueError`). */
  predicate Readable(n: Note) {
    !n.Missing? && (n.Text? ==> Ascii(n.s))
  }

  /** `str(data['note'])` for a note it can be taken of. */
  function NoteText(n: Note): string
    requires Readable(n)
  {
    if n.Null? then "None" else n.s
  }

  // ========================================================= fingerprint

  /** `generate_fingerprint()`, with the SHA-1 hex digest, the login name,
      the host name and the integer seconds of the clock as inputs. */
  function Fingerprint(sha1: string -> string, user: string, fqdn: string, seconds: nat): (fp: string)
    ensures fp == sha1(user + "; " + fqdn + "--" + DecimalString(seconds)) + "; " + user + "; " + fqdn + "; " + DecimalString(seconds)
  {
    var details := Join([user, fqdn], "; ");
    var timestamp := DecimalString(seconds);
    JoinSmall(user, fqdn, "", "", "; ");
    JoinSmall(details, timestamp, "", "", "--");
    JoinSmall(sha1(details + "--" + timestamp), details, timestamp, "", "; ");
    Join([sha1(Join([details, timestamp], "--")), details, timestamp], "; ")
  }

  /** The fingerprint splits on `"; "` into the digest of
      `user; fqdn--seconds`, the user, the host and the seconds, which read
      back as the same number. */
  lemma FingerprintFields(sha1: string -> string, user: string, fqdn: string, seconds: nat)
    requires ';' !in user && ';' !in fqdn
    requires ';' !in sha1(user + "; " + fqdn + "--" + DecimalString(seconds))
    ensures var parts := Split(Fingerprint(sha1, user, fqdn, seconds), "; ");
      && parts == [sha1(user + "; " + fqdn + "--" + DecimalString(seconds)), user, fqdn, DecimalString(seconds)]
      && AllDigits(parts[3]) && DecimalValue(parts[3]) == seconds
  {
    var timestamp := DecimalString(seconds);
    var details := user + "; " + fqdn;
    var hashed := sha1(details + "--" + timestamp);
    JoinSmall(user, fqdn, "", "", "; ");
    JoinSmall(details, timestamp, "", "", "--");
    JoinSmall(hashed, details, timestamp, "", "; ");
    JoinSmall(hashed, user, fqdn, timestamp, "; ");
    assert hashed + "; " + details + "; " + timestamp == hashed + "; " + user + "; " + fqdn + "; " + timestamp;
    assert ';' !in timestamp;
    var parts := [hashed, user, fqdn, timestamp];
    forall i | 0 <= i < |parts|
      ensures !Contains(parts[i], "; ")
    {
      HeadAbsentNotContained(parts[i], "; ");
    }
    SplitJoin(parts, "; ");
    DecimalRoundTrip(seconds);
  }

  // ================================================= github_auth_request

  /** The headers every call sends: `Accept`, plus `X-GitHub-OTP` when a
      one-time password is given. */
  function AuthHeaders(otp: Option<string>): (h: map<string, string>)
    ensures "Accept" in h && h["Accept"] == DamageAccept
    ensures "X-GitHub-OTP" in h <==> otp.Some?
    ensures otp.Some? ==> h["X-GitHub-OTP"] == otp.value
    ensures h.Keys <= {"Accept", "X-GitHub-OTP"}
  {
    if otp.Some? then map["Accept" := DamageAccept, "X-GitHub-OTP" := otp.value]
    else map["Accept" := DamageAccept]
  }

  /** `github_auth_request(http, uri, auth, otp=…, api=…, payload=…)`: the
      URL is always the public `authorizations` endpoint, whatever `api` says. */
  function GithubAuthRequest(verb: Verb, uri: Option<string>, basic: (string, string), otp: Option<string>, api: Option<string>, body: Body): (r: AuthRequest)
    ensures r.url == AuthorizationsUrl + if uri.Some? then "/" + uri.value else ""
    ensures r.headers == AuthHeaders(otp)
    ensures r.verb == verb && r.basic == basic && r.body == body
  {
    var url := if api.Some? then AuthorizationsUrl else AuthorizationsUrl;
    JoinSmall(url, if uri.Some? then uri.value else "", "", "", "/");
    AuthRequest(verb, if uri.Some? then Join([url, uri.value], "/") else url, basic, AuthHeaders(otp), body)
  }

  // ================================================= create_authorization

  /** The note as the tool stores it: lower case, with `-` and ` ` both made `-`. */
  function Slug(note: string): (s: string)
    ensures |s| == |note|
    ensures forall i :: 0 <= i < |note| ==> s[i] == if note[i] == '-' || note[i] == ' ' then '-' else LowerChar(note[i])
  {
    seq(|note|, i requires 0 <= i < |note| => if note[i] == '-' || note[i] == ' ' then '-' else LowerChar(note[i]))
  }

  /** The `note` of `create_authorization`: `gist-shell` for a note of at
      most one byte, otherwise `gist-shell-` and the slug of the note. The
      note is the byte string read from the terminal, one character per
      byte, so its length is Python 2's `len` and `Lower` lowers ASCII only. */
  function NormaliseNote(note: string): (n: string)
    ensures |note| <= 1 ==> n == AppNote
    ensures |note| > 1 ==> n == AppNote + "-" + Slug(note)
  {
    if |note| > 1 then
      var words := Split(ReplaceChar(Lower(note), '-', ' '), " ");
      JoinSplitReplaces(ReplaceChar(Lower(note), '-', ' '), ' ', '-');
      assert ([AppNote] + words)[1..] == words;
      assert ReplaceChar(ReplaceChar(Lower(note), '-', ' '), ' ', '-') == Slug(note);
      Join([AppNote] + words, "-")
    else AppNote
  }

  /** Every note this tool creates begins with `gist-shell`, so its own
      listing finds it again. */
  lemma NoteKeepsAppName(note: string)
    ensures StartsWith(NormaliseNote(note), AppNote)
    ensures Contains(NormaliseNote(note), AppNote)
  {
    var n := NormaliseNote(note);
    assert n[..|AppNote|] == AppNote;
    assert n[0..] == n;
  }

  /** A single character typed at the prompt that takes two bytes in UTF-8,
      such as `é`, is long enough to be kept in the note. */
  lemma TwoByteNoteKept()
    ensures NormaliseNote([0xC3 as char, 0xA9 as char]) == AppNote + "-" + [0xC3 as char, 0xA9 as char]
  {
    var note := [0xC3 as char, 0xA9 as char];
    assert Slug(note) == note;
  }

  /** A note typed in ASCII is normalised to ASCII, so `str` can later be
      taken of it. */
  lemma NormalisedNoteAscii(note: string)
    requires Ascii(note)
    ensures Ascii(NormaliseNote(note))
  {
    if |note| > 1 {
      var n := NormaliseNote(note);
      forall i | 0 <= i < |n|
        ensures n[i] < 128 as char
      {
        if i > |AppNote| {
          assert n[i] == Slug(note)[i - |AppNote| - 1];
        }
      }
    }
  }

  /** `create_authorization(auth, note, otp, api)`, with the inputs of
      `generate_fingerprint`: the status flag is true exactly for a 201
      response; the body is `None` when it does not decode. */
  function CreateAuthorization<T>(send: AuthRequest -> Reply<T>, basic: (string, string), note: string, otp: Option<string>, api: Option<string>,
                                  sha1: string -> string, user: string, fqdn: string, seconds: nat): (r: (bool, Option<T>))
    ensures var request := GithubAuthRequest(Post, None, basic, otp, api, NewAuthorization(NormaliseNote(note), NoteUrl, ["gist"], Fingerprint(sha1, user, fqdn, seconds)));
      (r.0 <==> send(request).status == 201) && r.1 == send(request).body
  {
    var payload := NewAuthorization(NormaliseNote(note), NoteUrl, ["gist"], Fingerprint(sha1, user, fqdn, seconds));
    var reply := send(GithubAuthRequest(Post, None, basic, otp, api, payload));
    (reply.status == 201, reply.body)
  }

  // ==================================================== get_authorization

  /** `re.search('gist-shell', str(note))`. */
  predicate Mentions(r: AuthRecord)
    requires Readable(r.note)
  {
    Contains(NoteText(r.note), AppNote)
  }

  /** `str` can be taken of every note of `records`. */
  predicate NotesReadable(records: seq<AuthRecord>) {
    forall i :: 0 <= i < |records| ==> Readable(records[i].note)
  }

  /** The records whose note mentions `gist-shell`, in their order. */
  function Mentioning(records: seq<AuthRecord>): (kept: seq<AuthRecord>)
    requires NotesReadable(records)
    ensures |kept| <= |records|
    decreases |records|
  {
    if |records| == 0 then []
    else
      var rest := Mentioning(records[1..]);
      if Mentions(records[0]) then [records[0]] + rest else rest
  }

  /** An authorization is kept exactly when it is among `records` and passes the note test. */
  lemma {:induction false} MentioningKeeps(records: seq<AuthRecord>)
    requires NotesReadable(records)
    ensures forall r :: r in Mentioning(records) ==> r in records && Mentions(r)
    ensures forall r :: r in records && Mentions(r) ==> r in Mentioning(records)
    decreases |records|
  {
    if |records| > 0 {
      MentioningKeeps(records[1..]);
      assert forall r :: r in records[1..] ==> r in records;
      assert forall r :: r in records ==> r == records[0] || r in records[1..];
    }
  }

  lemma {:induction false} MentioningAppend(records: seq<AuthRecord>, r: AuthRecord)
    requires NotesReadable(records) && Readable(r.note)
    ensures NotesReadable(records + [r])
    ensures Mentioning(records + [r]) == Mentioning(records) + if Mentions(r) then [r] else []
    decreases |records|
  {
    if |records| > 0 {
      assert (records + [r])[1..] == records[1..] + [r];
      MentioningAppend(records[1..], r);
    }
  }

  /** What `get_authorization` is evidently meant to return for the listing
      (no `auth_ids`): the listed authorizations whose note mentions
      `gist-shell`; `[]` for a non-200 status, a body that does not decode,
      or an item whose note is missing or is not ASCII text. */
  function ListingFilter(reply: Reply<seq<AuthRecord>>): seq<AuthRecord> {
    if reply.status != 200 || reply.body.None? || !NotesReadable(reply.body.value) then []
    else Mentioning(reply.body.value)
  }

  /** A listed note holding a character outside ASCII makes `str` raise a
      `ValueError`, which is caught: the listing keeps nothing, even when
      other items mention `gist-shell`. */
  lemma NonAsciiNoteEmptiesListing(records: seq<AuthRecord>, k: nat)
    requires k < |records| && records[k].note.Text? && !Ascii(records[k].note.s)
    ensures ListingFilter(Reply(200, Some(records))) == []
  {
  }

  /** The listing branch as written: the note test reads `data['note']` on
      the decoded list itself, which raises `TypeError` (not caught) as soon
      as the list has an item. */
  function ListingAsWritten(reply: Reply<seq<AuthRecord>>): (r: Outcome<seq<AuthRecord>>)
    ensures r.Raised? <==> reply.status == 200 && reply.body.Some? && |reply.body.value| > 0
    ensures r.Returned? ==> r.value == []
  {
    if reply.status != 200 || reply.body.None? then Returned([])
    else if |reply.body.value| == 0 then Returned([])
    else Raised
  }

  /** A listing holding one authorization this tool created makes the call
      as written raise, where the evident intent keeps that authorization. */
  lemma ListingAsWrittenRaises(note: string, id: nat)
    requires Ascii(note)
    ensures var reply := Reply(200, Some([AuthRecord(id, Text(NormaliseNote(note)))]));
      ListingAsWritten(reply) == Raised && ListingFilter(reply) == [AuthRecord(id, Text(NormaliseNote(note)))]
  {
    NoteKeepsAppName(note);
    NormalisedNoteAscii(note);
    var rec := AuthRecord(id, Text(NormaliseNote(note)));
    assert [rec][1..] == [];
  }

  /** A 200 response for one id that cannot be used: its body does not decode,
      or `str` cannot be taken of its note. */
  predicate Broken(reply: Reply<AuthRecord>) {
    reply.status == 200 && (reply.body.None? || !Readable(reply.body.value.note))
  }

  /** The `for auth_id in auth_ids` loop; `one(id)` is the response for `id`.
      `None` is the early `return []`. */
  function KeptById(one: string -> Reply<AuthRecord>, ids: seq<string>): (r: Option<seq<AuthRecord>>)
    ensures r.Some? ==> |r.value| <= |ids|
    decreases |ids|
  {
    if |ids| == 0 then Some([])
    else
      var reply := one(ids[0]);
      if reply.status != 200 then KeptById(one, ids[1..])
      else if Broken(reply) then None
      else Prefixed(if Mentions(reply.body.value) then [reply.body.value] else [], KeptById(one, ids[1..]))
  }

  /** The decoded bodies of the 200 responses, in id order. */
  function Answered(one: string -> Reply<AuthRecord>, ids: seq<string>): (records: seq<AuthRecord>)
    requires forall i :: 0 <= i < |ids| ==> !Broken(one(ids[i]))
    ensures NotesReadable(records)
    ensures |records| <= |ids|
    decreases |ids|
  {
    if |ids| == 0 then []
    else
      var reply := one(ids[0]);
      assert !Broken(reply);
      assert forall i :: 0 <= i < |ids| - 1 ==> ids[1..][i] == ids[i + 1];
      var rest := Answered(one, ids[1..]);
      if reply.status == 200 then
        assert forall i :: 1 <= i <= |rest| ==> ([reply.body.value] + rest)[i] == rest[i - 1];
        [reply.body.value] + rest
      else rest
  }

  /** By id, the call returns `[]` exactly when some id answers 200 with an
      unusable body; otherwise it keeps, in id order, the answered
      authorizations whose note mentions `gist-shell`; non-200 ids are skipped. */
  lemma {:induction false} KeptByIdFilters(one: string -> Reply<AuthRecord>, ids: seq<string>)
    ensures KeptById(one, ids).None? <==> exists i :: 0 <= i < |ids| && Broken(one(ids[i]))
    ensures KeptById(one, ids).Some? ==>
      (forall i :: 0 <= i < |ids| ==> !Broken(one(ids[i]))) && KeptById(one, ids).value == Mentioning(Answered(one, ids))
    decreases |ids|
  {
    if |ids| > 0 {
      KeptByIdFilters(one, ids[1..]);
      assert forall i :: 1 <= i < |ids| ==> ids[1..][i - 1] == ids[i];
      if !Broken(one(ids[0])) && KeptById(one, ids[1..]).Some? {
        var reply := one(ids[0]);
        if reply.status == 200 {
          assert ([reply.body.value] + Answered(one, ids[1..]))[1..] == Answered(one, ids[1..]);
        }
      }
    }
  }

  /** `get_authorization(auth, auth_ids, otp, api)` (with the listing branch
      as evidently intended): the authorizations whose note mentions `gist-shell`. */
  function Authorizations(listing: AuthRequest -> Reply<seq<AuthRecord>>, single: AuthRequest -> Reply<AuthRecord>,
                          basic: (string, string), ids: Option<seq<string>>, otp: Option<string>, api: Option<string>): seq<AuthRecord>
  {
    if ids.None? || |ids.value| == 0 then ListingFilter(listing(GithubAuthRequest(Get, None, basic, otp, api, EmptyObject)))
    else KeptById(ById(single, basic, otp, api), ids.value).GetOr([])
  }

  /** The response to the request for one id. */
  function ById(single: AuthRequest -> Reply<AuthRecord>, basic: (string, string), otp: Option<string>, api: Option<string>): string -> Reply<AuthRecord> {
    (id: string) => single(GithubAuthRequest(Get, Some(id), basic, otp, api, EmptyObject))
  }

  /** The `for authorization in data` loop of the listing branch (as
      evidently intended). */
  method KeepListed(reply: Reply<seq<AuthRecord>>) returns (kept: seq<AuthRecord>)
    ensures kept == ListingFilter(reply)
  {
    kept := [];
    if reply.status != 200 || reply.body.None? {
      return [];
    }
    var items := reply.body.value;
    var i := 0;
    while i < |items|
      invariant 0 <= i <= |items|
      invariant NotesReadable(items[..i])
      invariant kept == Mentioning(items[..i])
    {
      if !Readable(items[i].note) {
        assert !NotesReadable(items);
        return [];
      }
      assert items[..i + 1] == items[..i] + [items[i]];
      MentioningAppend(items[..i], items[i]);
      if Mentions(items[i]) {
        kept := kept + [items[i]];
      }
      i := i + 1;
    }
    assert items[..i] == items;
  }

  /** The `for auth_id in auth_ids` loop; `one(id)` is the response for `id`. */
  method KeepById(one: string -> Reply<AuthRecord>, ids: seq<string>) returns (kept: seq<AuthRecord>)
    ensures kept == KeptById(one, ids).GetOr([])
    ensures forall r :: r in kept ==> Readable(r.note) && Mentions(r)
  {
    kept := [];
    var i := 0;
    PrefixedNothing(KeptById(one, ids));
    while i < |ids|
      invariant 0 <= i <= |ids|
      invariant KeptById(one, ids) == Prefixed(kept, KeptById(one, ids[i..]))
      invariant forall r :: r in kept ==> Readable(r.note) && Mentions(r)
    {
      var reply := one(ids[i]);
      assert ids[i..][0] == ids[i];
      assert ids[i..][1..] == ids[i + 1..];
      if reply.status == 200 {
        if reply.body.None? || !Readable(reply.body.value.note) {
          return [];
        }
        if Mentions(reply.body.value) {
          PrefixedAppend(kept, [reply.body.value], KeptById(one, ids[i + 1..]));
          kept := kept + [reply.body.value];
        } else {
          PrefixedNothing(KeptById(one, ids[i + 1..]));
        }
      }
      i := i + 1;
    }
    assert kept + [] == kept;
  }

  method GetAuthorization(listing: AuthRequest -> Reply<seq<AuthRecord>>, single: AuthRequest -> Reply<AuthRecord>,
                          basic: (string, string), ids: Option<seq<string>>, otp: Option<string>, api: Option<string>)
    returns (kept: seq<AuthRecord>)
    ensures kept == Authorizations(listing, single, basic, ids, otp, api)
    ensures forall r :: r in kept ==> Readable(r.note) && Mentions(r)
  {
    if ids.None? || |ids.value| == 0 {
      var reply := listing(GithubAuthRequest(Get, None, basic, otp, api, EmptyObject));
      kept := KeepListed(reply);
      if kept != [] {
        MentioningKeeps(reply.body.value);
      }
    } else {
      kept := KeepById(ById(single, basic, otp, api), ids.value);
    }
  }

  // ================================================= delete_authorization

  /** The status of the delete request for one id. */
  function DeleteStatus(remove: AuthRequest -> int, basic: (string, string), otp: Option<string>, api: Option<string>): string -> int {
    (uri: string) => remove(GithubAuthRequest(Delete, Some(uri), basic, otp, api, EmptyObject))
  }

  /** The `for authorization in authorizations` loop: one delete per
      target, counting the 204 answers; `status(uri)` is the status of the
      delete for `uri`. */
  method CountDeletes(status: string -> int, targets: seq<AuthRecord>) returns (ok: bool, uris: seq<string>)
    ensures |uris| == |targets|
    ensures forall i :: 0 <= i < |targets| ==> uris[i] == DecimalString(targets[i].id)
    ensures ok <==> forall i :: 0 <= i < |uris| ==> status(uris[i]) == 204
  {
    var deleteCount := 0;
    uris := [];
    var i := 0;
    while i < |targets|
      invariant 0 <= i <= |targets| && |uris| == i
      invariant forall j :: 0 <= j < i ==> uris[j] == DecimalString(targets[j].id)
      invariant 0 <= deleteCount <= i
      invariant deleteCount == i <==> forall j :: 0 <= j < i ==> status(uris[j]) == 204
    {
      var authId := DecimalString(targets[i].id);
      if status(authId) == 204 {
        deleteCount := deleteCount + 1;
      }
      uris := uris + [authId];
      i := i + 1;
    }
    ok := deleteCount == |targets|;
  }

  /** `delete_authorization(auth, auth_ids, otp, api)`: one delete per
      authorization `get_authorization` returns, in that order; true exactly
      when every delete answered 204 (so also when there was nothing to delete). */
  method DeleteAuthorization(listing: AuthRequest -> Reply<seq<AuthRecord>>, single: AuthRequest -> Reply<AuthRecord>,
                             remove: AuthRequest -> int,
                             basic: (string, string), ids: Option<seq<string>>, otp: Option<string>, api: Option<string>)
    returns (ok: bool, uris: seq<string>)
    ensures var targets := Authorizations(listing, single, basic, ids, otp, api);
      && |uris| == |targets|
      && (forall i :: 0 <= i < |targets| ==> uris[i] == DecimalString(targets[i].id))
      && (ok <==> forall i :: 0 <= i < |uris| ==> DeleteStatus(remove, basic, otp, api)(uris[i]) == 204)
  {
    var targets := GetAuthorization(listing, single, basic, ids, otp, api);
    ok, uris := CountDeletes(DeleteStatus(remove, basic, otp, api), targets);
  }
}
