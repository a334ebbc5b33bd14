# gist-shell, modelled in Dafny

gist-shell is a command-line client for GitHub Gists. It has two Python packages, `gister` and `libgist`, and two scripts, `bin/gist.py` and `bin/gister.py`. This project models the parts of them that hold logic of their own:

- **The credential vault.** A JSON file maps a name to `{"credentials": …, "default": …}`. `fetch_credentials` reads one entry: by name, or the default one. `update_credentials` merges a new entry, rejects a name that is already stored unless forced, and clears every other default flag. `login` builds the entry from a newly created OAuth authorization and stores it.
- **Paging through listings.** GitHub pages its listings and announces the next and last pages in the `Link` response header (section 3 of RFC 8288). The `gister` package reads the `rel="next"` segment. It walks pages until one has no next page, and gives up (returns `[]`) at the first failed page. The `libgist` package reads the `rel="last"` segment of the first response only, clamps its page limit to it, and skips pages whose status is not 200; a 200 page whose body does not decode makes it raise. `get_email_addr` walks the `/user/emails` pages looking for the primary address. `gister` keeps its request headers in a module-level dictionary that calls update in place.
- **OAuth authorization helpers.** Both packages have helpers that:
  - build the fingerprint and the request sent to the `authorizations` endpoint;
  - create an authorization with a normalised note;
  - list the authorizations the tool created, selected by their note;
  - delete those authorizations.

The network, the JSON codec, the clock, SHA-1, the login name and the host name are all parameters of the model:

- A listing call takes a `server` function from request to response.
- The page walkers take the answers page by page (`fetch: int -> Response`) and the `Link` reader as functions. Their contracts therefore hold for every possible sequence of answers.
- An exception that the source does not catch is the value `Raised` of `Outcomes.Outcome`.
- A dictionary key that may be missing is an `Option`.
- An authorization's `note` is the decoded JSON string, which Python 2 holds as `unicode`. `str` of it raises `UnicodeEncodeError`, a `ValueError`, when it holds a character outside ASCII. The note typed at the `login` prompt is a byte string, one character per byte.

Files:

- `outcomes.dfy`: `Option`, `Outcome`, and prefixing a page onto a result that may fail.
- `text.dfy`: the behaviour of the Python string operations the code uses: `split`/`join` on a separator, `strip`, `rstrip`, ASCII `lower`, `str`/`int` of a natural number.
- `http.dfy`: requests, responses, and the per-page answers of a listing request.
- `vault.dfy`: `fetch_credentials` and `update_credentials`. The two scripts carry identical copies of both.
- `login.dfy`: the vault entry `login` writes.
- `gister_gists.dfy` and `gister_authorizations.dfy`: the `gister` package.
- `libgist_gists.dfy` and `libgist_authorizations.dfy`: the `libgist` package.

Where the code and its documentation disagree, the model follows the code:

- A vault file that is not valid JSON is treated as an empty vault and overwritten, whether or not `force` is set. The docstring of `update_credentials` (bin/gist.py:82-84) says the call returns `None` without `force`. See `Vault.MalformedFileReplaced`.
- A vault file that exists but cannot be opened for reading (no read permission, or a directory) makes `fetch_credentials`, `update_credentials` and so `login` raise an `IOError`, since only `ValueError` and `KeyError` are caught around the read. The docstring of `update_credentials` (bin/gist.py:85-86) promises `None` for incorrect file permissions; the code keeps that promise only for the write (bin/gist.py:112-116). See `Vault.UnreadableVaultRaises`.
- An existing entry without a `default` key stops a default update with `None`, with or without `force`. The `vault = {}` under `force` is dead code, because the `return None` follows it. See `Vault.MissingFlagStopsUpdate`.
- The `gister` `Link` reader only recognises a page number that follows `&`. A segment `<…?page=3>; rel="next"` yields no page, so the walk stops. See `GisterGists.QueryFirstPageIgnored`.
- The `gister` `github_auth_request` ignores `api`: it always calls the public endpoint. The `libgist` copy has no URL at all when `api` is `None`, which is the default, so every one of its requests then raises. It also never uses the value of `api`. See `LibgistAuthorizations.RequestUrl` and `LibgistAuthorizations.NoApiRaises`.

## Model

| member | source | states |
|---|---|---|
| Vault.ScanDefault | bin/gist.py:64-67 | the default lookup yields the credentials of the first entry, in key order, whose `default` is true, and every entry before it has `default` false; it yields `None` when no entry is default |
| Vault.FetchCredentials | bin/gist.py:61-71 | a vault file that exists but cannot be opened for reading raises (the `IOError` is not caught); no file or a file that does not decode gives `None`; a name lookup gives that entry's credentials, or `None` when the name is absent; a default lookup that succeeds gives the credentials of an entry whose `default` is true; the `gister` script's copy (bin/gister.py:40-50) is identical |
| Vault.FirstDefaultWins | bin/gist.py:64-67 | with several default entries, the first one visited is returned |
| Vault.MissingFlagEndsScan | bin/gist.py:64-70 | an entry without a `default` key, visited before any default entry, makes the default lookup return `None` (the `KeyError` is caught) |
| Vault.Cleared | bin/gist.py:103-104 | clearing a flag keeps the credentials and the presence of the `default` key, and leaves the flag not true |
| Vault.UpdatedVault | bin/gist.py:90-110 | the vault `update_credentials` would write: it raises exactly when the file exists but cannot be read, and a vault it yields holds every entry of `data` as given |
| Vault.UpdateCredentials | bin/gist.py:74-118 | the update raises exactly when the vault file exists but cannot be read; otherwise it returns a map exactly when the stored vault can be updated and the write succeeds; the map returned is the updated vault, and the file then holds it; on every `None` path the file is unchanged; the same holds for the identical copy at bin/gister.py:53-97 |
| Vault.ConflictWritesNothing | bin/gist.py:97-98 | a name already stored is not overwritten without `force`: the update returns `None` and writes nothing; likewise at bin/gister.py:76-77 |
| Vault.MissingFlagStopsUpdate | bin/gist.py:100-108 | when the new entry is the default, an existing entry without a `default` key stops the update with `None`, for both values of `force`; likewise at bin/gister.py:79-87 |
| Vault.MalformedFileReplaced | bin/gist.py:90-95 | a vault file that does not decode is replaced by exactly the new data, whatever `force` says |
| Vault.UpdateShape | bin/gist.py:100-110 | after a successful update the keys are the old ones plus those of `data`; each entry of `data` is stored whole; every other entry is unchanged, except that an incoming default clears every other default flag |
| Vault.OneDefaultRemains | bin/gist.py:100-110 | storing one default entry leaves exactly one default, the new entry; likewise at bin/gister.py:79-89 |
| Vault.FetchAfterUpdate | bin/gist.py:61-118 | after a successful update, looking the stored name up yields the credentials just stored |
| Vault.UnreadableVaultRaises | bin/gist.py:61-71 | a vault file that exists but cannot be read makes both the lookup and the update raise, whatever the arguments; the `IOError` of the read at bin/gist.py:63 and 93 (bin/gister.py:42 and 72) is outside what `except (ValueError, KeyError)` catches |
| Vault.DefaultFetchAfterUpdate | bin/gist.py:61-118 | after a successful default update, the default lookup yields the new entry's credentials, in any key order |
| Login.LoginRecord | bin/gist.py:145-155 | the vault data `login` writes holds one key, the application name; its entry carries the new authorization's id, token, username and creation time, and the requested default flag; the `gister` script (bin/gister.py:124-133) writes the same entry without `username` (`None` in the model) |
| Login.Login | bin/gist.py:142-160 | `login` reports success exactly when the authorization was created, and raises instead when the vault file exists but cannot be read; the vault is then updated with `force` equal to the default flag, and is otherwise untouched; the same holds for bin/gister.py:121-137 |
| Login.DefaultLoginTakesOver | bin/gist.py:145-157 | when every stored entry has its `default` key and the vault file can be read, a default login's update always goes through (only the write itself can fail); afterwards both the name lookup and the default lookup yield the new credentials |
| Login.RepeatedLoginKeepsEntry | bin/gister.py:134-135 | a non-default login under a name already stored writes nothing |
| GisterGists.PageNumber | gister/gists.py:38-39 | the page number read from a link is the one found by the leftmost match of `&page=<digits>>`, and there is none when no position matches |
| GisterGists.PageNumberIsFirstMatch | gister/gists.py:38-39 | the match at the first matching position decides the page number |
| GisterGists.NoAmpersandNoPage | gister/gists.py:38-39 | a link without `&` holds no page number |
| GisterGists.PageOfLinkTarget | gister/gists.py:37-39 | in `<url&page=n>` with no `>` in the URL, the page number read back is `n` |
| GisterGists.LinkSegmentRoundTrip | gister/gists.py:32-39 | a segment written as GitHub writes it, `<url&page=n>; rel="rel"`, parses back to `n` |
| GisterGists.QueryFirstPageIgnored | gister/gists.py:36-39 | a page given as the first query parameter, `?page=n`, is not found: the segment yields no page |
| GisterGists.ParseLinkHeader | gister/gists.py:32-39 | a segment yields a page number only when it contains `rel="<rel>"`; the number is the one `PageNumber` reads from the stripped part before the first `;` |
| GisterGists.CheckPageLimit | gister/gists.py:42-54 | no `Link` header gives `None`; a next page is found only when the header contains `rel="next"`, and only its first `", "`-separated segment is parsed |
| GisterGists.FirstSegmentDecides | gister/gists.py:48-54 | only the first `", "`-separated segment of the `Link` header decides the next page |
| GisterGists.NextFirstYieldsPage | gister/gists.py:42-54 | a header that starts with a `next` segment yields that segment's page, whatever follows |
| GisterGists.NextAfterOtherSegmentIgnored | gister/gists.py:53-54 | a header whose first segment is not a `next` link yields no page, even when a `next` segment follows |
| GisterGists.WalkPages | gister/gists.py:97-115 | the paging loop returns what `CollectFrom` defines (`[]` when a page fails) and requests exactly the pages `RequestedFrom` lists; the loops of `list_commits` (gister/gists.py:232-250) and `list_forks` (312-330) are the same loop |
| GisterGists.RequestedPagesInOrder | gister/gists.py:97-113 | pages are requested as 1, 2, … in order, never more than the page limit and none when it is below 1; each page but the last was a 200 with a decoded body and a next page; the walk stops at a failed page, a page with no next page, or the limit |
| GisterGists.CollectedPages | gister/gists.py:102-115 | the walk fails, discarding the pages collected so far, exactly when the last page requested failed; otherwise it returns the bodies of all requested pages, concatenated in page order |
| GisterGists.FullPagesUpToLimit | gister/gists.py:99-113 | when every page up to the limit succeeds and links to a next page, exactly the pages 1 to the limit are requested, and their bodies are concatenated |
| GisterGists.FirstPrimary | gister/gists.py:373-375 | the scan of one page finds the first entry whose `primary` is true, after entries whose `primary` is false; it stops at an entry without `primary`; it finds nothing exactly when every entry is not primary |
| GisterGists.ScanEmails | gister/gists.py:372-377 | the inner loop over one page's entries ends as `FirstPrimary` says |
| GisterGists.EmailFrom | gister/gists.py:367-386 | an address is returned only when it is the `email` of the first primary entry on some 200 page within the limit, and every earlier page was a 200 without any primary entry |
| GisterGists.EmailFound | gister/gists.py:368-384 | conversely, when every earlier page is a 200 without a primary entry and links to a next page, the `email` of the first primary entry on the next page is returned |
| GisterGists.EmailMissed | gister/gists.py:371-386 | after such pages, `None` is returned when the next page is not a 200 or does not decode, holds an entry without `primary` before any primary one, or holds no primary entry and has no next link or is the last page allowed |
| GisterGists.WalkEmails | gister/gists.py:367-386 | the paging loop of `get_email_addr` returns what `EmailFrom` defines |
| GisterGists.GetEmailAddr | gister/gists.py:351-386 | `get_email_addr` asks for `/user/emails` with the JSON media type and the token, and returns the address `EmailFrom` defines for those pages |
| GisterGists.ApiBase | gister/gists.py:75 | the base URL is the public API without `api`; otherwise it is `api` with its trailing `/` characters removed, and only those |
| GisterGists.ListGistUrl | gister/gists.py:75-95 | `/gists/public` without a token or user, `/gists` with a token only, `/users/<user>/gists` with a user; `starred` adds `/starred` with a token and no user, and otherwise makes the call return before any request |
| GisterGists.GistPagesUrl | gister/gists.py:221-306 | the URL of `list_commits` is `<base>/gists/<id>/commits` (lines 221-226) and that of `list_forks` is `<base>/gists/<id>/forks` (lines 301-306) |
| GisterGists.ListParams | gister/gists.py:76-77 | `per_page` is always sent, and `since` exactly when it is given |
| GisterGists.TokenOutlivesItsCall | gister/gists.py:79-80 | once a call has passed a token, every later call that passes none still sends `Authorization: token <that token>` |
| GisterGists.GistHeader.constructor | gister/gists.py:26-29 | the shared header dictionary starts with the gist media types as its only entry |
| GisterGists.GistHeader.Authorize | gister/gists.py:79-80 | a token sets `Authorization` in the shared headers; no token leaves them as they were |
| GisterGists.GistHeader.ListGist | gister/gists.py:57-115 | `list_gist` updates the shared headers first, returns `[]` without requests when `starred` cannot apply, and otherwise pages through its URL with those headers |
| GisterGists.GistHeader.ListGistPages | gister/gists.py:212-330 | `list_commits` (lines 212-250) and `list_forks` (lines 292-330) update the shared headers with the token and page fail-closed through `<base>/gists/<id>/commits` and `<base>/gists/<id>/forks` |
| GisterGists.TokenLeaksIntoLaterCall | gister/gists.py:79-80 | a `list_gist` call without a token, made after one with a token, still sends that token |
| LibgistGists.FirstLastSegment | libgist/gists.py:32-36 | with no segment mentioning `rel="last"`, no page limit is found |
| LibgistGists.FirstLastSegmentAt | libgist/gists.py:32-36 | the first segment mentioning `rel="last"` decides the limit, and later segments are never read |
| LibgistGists.LastPageLimit | libgist/gists.py:25-36 | reading the page limit raises exactly when the response has no `Link` header |
| LibgistGists.LastSegmentFoundAnywhere | libgist/gists.py:30-36 | a `rel="last"` segment yields its page wherever it stands in the header |
| LibgistGists.NoLastSegmentNoLimit | libgist/gists.py:32-36 | a header without a `rel="last"` segment sets no limit |
| LibgistGists.Clamp | libgist/gists.py:76-77 | the page limit is lowered to the last page, never raised, and only changes to that page number |
| LibgistGists.LimitAfter | libgist/gists.py:74-78 | the limit in force after a page is never above the one before it |
| LibgistGists.WalkClamped | libgist/gists.py:66-81 | the loop of `list_gists` returns what `ListFrom` defines and requests exactly the pages `RequestedFrom` lists |
| LibgistGists.RequestsBounded | libgist/gists.py:66-79 | pages are requested in increasing order from 1, never more than the page limit, and never more than the `last` page announced by the first response |
| LibgistGists.SkippedPagesContributeNothing | libgist/gists.py:69-81 | the result is the concatenation of the bodies of the 200 pages requested, in page order, and other pages contribute nothing; the call raises exactly when the last page requested is a 200 whose body does not decode, or the first response has no `Link` header |
| LibgistGists.GistHeader.constructor | libgist/gists.py:20-22 | the libgist header dictionary starts with its media type as its only entry |
| LibgistGists.GistHeader.ListGists | libgist/gists.py:39-81 | `list_gists` sets `Authorization` only when a token is given and no user, and pages through its URL with the clamping loop |
| LibgistGists.ListGistsUrl | libgist/gists.py:51-64 | `api` is used as given; the path is `/gists` without a user and `/users/<user>/gists` with one |
| GisterAuthorizations.Fingerprint | gister/authorizations.py:18-27 | the fingerprint is `<hash>; <user>; <host>; <seconds>`, where the hash is the SHA-1 hex digest of `<user>; <host>--<seconds>` and the seconds are written in decimal |
| GisterAuthorizations.FingerprintFields | gister/authorizations.py:18-27 | the fingerprint splits on `"; "` into the SHA-1 digest of `user; host--seconds`, then the user, the host and the seconds, which read back as the same number; the `libgist` copy (libgist/authorizations.py:17-26) is the same code |
| GisterAuthorizations.AuthHeaders | gister/authorizations.py:44-51 | `Accept` is always sent; `X-GitHub-OTP` is sent exactly when a one-time password is given, and nothing else is sent; the `libgist` copy (libgist/authorizations.py:43-50) sends the same headers |
| GisterAuthorizations.GithubAuthRequest | gister/authorizations.py:43-57 | the URL is the public `authorizations` endpoint whatever `api` says, with `/<uri>` appended when a `uri` is given |
| GisterAuthorizations.NormaliseNote | gister/authorizations.py:72-79 | the note is the byte string typed at the prompt; a note of at most one byte becomes `gist-shell`; a longer note becomes `gist-shell-` followed by the note, its ASCII letters lower-cased, with each `-` and space turned into `-` |
| GisterAuthorizations.TwoByteNoteKept | gister/authorizations.py:72 | a single character that takes two bytes in UTF-8, such as `é`, is long enough to be kept: the note becomes `gist-shell-é` |
| GisterAuthorizations.NormalisedNoteAscii | gister/authorizations.py:72-79 | a note typed in ASCII is normalised to ASCII, so `str` can later be taken of it |
| GisterAuthorizations.NoteKeepsAppName | gister/authorizations.py:72-79 | every note this tool sends begins with `gist-shell`, so its own listing finds the authorization again |
| GisterAuthorizations.CreateAuthorization | gister/authorizations.py:62-89 | the new authorization is posted with the normalised note, the `gist` scope and the fingerprint `generate_fingerprint` builds from the login name, host name and clock; the status flag is true exactly for a 201; the body is `None` when it does not decode |
| GisterAuthorizations.Mentioning | gister/authorizations.py:105-107 | the per-item filter of the listing as evidently intended: it keeps no more items than it is given; `MentioningKeeps` characterises what it keeps |
| GisterAuthorizations.MentioningKeeps | gister/authorizations.py:118-119 | an authorization is kept exactly when it is among those answered and its note contains `gist-shell` |
| GisterAuthorizations.ListingAsWritten | gister/authorizations.py:99-109 | the listing branch as written raises exactly when a 200 listing decodes to a non-empty list, and otherwise returns `[]` |
| GisterAuthorizations.ListingAsWrittenRaises | gister/authorizations.py:104-107 | a listing holding one authorization this tool created (with an ASCII note) makes the call as written raise, where the evident intent keeps that authorization |
| GisterAuthorizations.NonAsciiNoteEmptiesListing | gister/authorizations.py:103-109 | in the listing as evidently intended, an item whose note holds a character outside ASCII makes `str` raise a `ValueError`, which is caught: nothing is kept, whatever the other items hold |
| GisterAuthorizations.KeepListed | gister/authorizations.py:102-109 | the listing loop, with the note read from each item, keeps in order the items whose note contains `gist-shell`; it gives `[]` for a non-200 status, a body that does not decode, or an item whose note is missing or not ASCII |
| GisterAuthorizations.Answered | gister/authorizations.py:111-119 | the decoded bodies of the ids answered 200, when no answer is broken: every note is readable and there are no more of them than ids |
| GisterAuthorizations.KeptById | gister/authorizations.py:111-122 | the result of the by-id branch, `None` standing for the `return []` of the `except`: when it returns a list, the list has no more items than there are ids; `KeptByIdFilters` characterises it |
| GisterAuthorizations.KeptByIdFilters | gister/authorizations.py:110-122 | by id, the call returns `[]` exactly when some id answers 200 with a body that does not decode, has no note, or has a note holding a character outside ASCII (the `str` call raises a caught `ValueError`); otherwise it keeps, in id order, the answered authorizations whose note contains `gist-shell`, and skips non-200 ids |
| GisterAuthorizations.KeepById | gister/authorizations.py:111-121 | the loop over ids returns what `KeptById` defines, and every kept authorization has a note containing `gist-shell` |
| GisterAuthorizations.GetAuthorization | gister/authorizations.py:92-122 | one listing request for no ids or an empty list of ids, otherwise one request per id; every authorization returned has a note containing `gist-shell`; the listing branch is the corrected one of the Findings table (`KeepListed`), not the one that raises as written |
| GisterAuthorizations.CountDeletes | gister/authorizations.py:133-144 | one delete per target, in order, for `str` of its id; the result is true exactly when every delete answered 204, so also when there is nothing to delete |
| GisterAuthorizations.DeleteAuthorization | gister/authorizations.py:125-144 | deletes exactly the authorizations `get_authorization` returns, in order, and reports true exactly when every delete answered 204; without ids it deletes what the corrected listing returns |
| LibgistAuthorizations.RequestUrl | libgist/authorizations.py:42-53 | without `api` the URL is `None`, and appending a `uri` to it raises; with `api` it is the public endpoint, never the value of `api`, with `/<uri>` appended when given |
| LibgistAuthorizations.SendRequest | libgist/authorizations.py:29-58 | a request raises exactly when `api` is `None`; otherwise it is the request the `gister` copy sends |
| LibgistAuthorizations.CreateAuthorization | libgist/authorizations.py:61-75 | the payload's note is exactly `gist-shell`, its scopes `["gist"]` and its fingerprint the one `generate_fingerprint` builds; the decoded body is returned, and the call raises when the body does not decode or the request cannot be sent |
| LibgistAuthorizations.Exactly | libgist/authorizations.py:90-92 | the exact-note filter of the listing: it keeps no more items than it is given; `ExactlyKeeps` characterises what it keeps |
| LibgistAuthorizations.ExactlyKeeps | libgist/authorizations.py:90-92 | an authorization is kept exactly when it is among those listed and its note is exactly `gist-shell` |
| LibgistAuthorizations.KeepListed | libgist/authorizations.py:88-92 | the listing loop returns `[]` for a non-200 status, raises for a body that does not decode or an item whose note is missing or not ASCII (`str` raises, uncaught), and otherwise keeps the exact-note items in order |
| LibgistAuthorizations.NonAsciiNoteRaises | libgist/authorizations.py:90-92 | a listed note holding a character outside ASCII makes the listing raise, whatever the other items hold |
| LibgistAuthorizations.ExactById | libgist/authorizations.py:94-102 | the result of the by-id branch, `Raised` where an exception escapes: when it returns, it has no more items than there are ids; `ExactByIdFilters` characterises it |
| LibgistAuthorizations.ExactByIdFilters | libgist/authorizations.py:94-102 | by id, the call raises exactly when some id's request raises: it cannot be sent, or answers 200 with a body that does not decode, without a note, or with a note holding a character outside ASCII; otherwise it keeps, in id order, the answered authorizations whose note is exactly `gist-shell`, and skips non-200 ids |
| LibgistAuthorizations.KeepById | libgist/authorizations.py:95-102 | the loop over ids returns what `ExactById` defines |
| LibgistAuthorizations.NoApiRaises | libgist/authorizations.py:47-53 | without `api`, asking by id raises at the first id |
| LibgistAuthorizations.GetAuthorization | libgist/authorizations.py:78-103 | one listing request for no ids or an empty list of ids, otherwise one request per id in order, with the outcomes above |
| LibgistAuthorizations.SendDeletes | libgist/authorizations.py:114-117 | one delete request per id, in order; the loop raises exactly when some request cannot be sent, and the requests recorded are exactly those sent before the first one that raises |
| LibgistAuthorizations.DeleteAuthorization | libgist/authorizations.py:106-117 | exactly one delete per authorization `get_authorization` returns, in that order, with the answers ignored; the call raises when the lookup raises, or when there is something to delete and no `api` |
| LibgistAuthorizations.ExactIsMentioned | libgist/authorizations.py:91 | every authorization this copy keeps is also kept by the `gister` copy's substring test |
| LibgistAuthorizations.GisterNoteNotExact | libgist/authorizations.py:101 | an authorization the `gister` copy created from an ASCII note of two or more characters is not found by this copy, though the `gister` copy finds it |
| Text.JoinSplitReplaces | gister/authorizations.py:73-76 | splitting on a character and joining with another replaces that character, as the note normalisation relies on |
| Text.SplitJoin | libgist/gists.py:30 | a `Link` header joined from segments free of `", "` splits back into exactly those segments |
| Text.DecimalRoundTrip | gister/gists.py:39 | `int` of `str(n)` is `n` for every natural number |

## Left out

- Network, JSON codec, clock, SHA-1, login name and host name: these are parameters of the model (`server`, `send`, `sha1`, `user`, `fqdn`, `seconds`). The value the server returns is already decoded into the fields the code reads.
- Interactive input: the prompts and the password read of `login`. `login` is modelled from the created authorization on. `print data` is left out.
- `get_external_ip_addr` and `upload` (bin/gist.py): a socket probe and a stub, not part of this model.
- `libgist/auth.py` and `libgist/__init__.py`: not part of this model. The first is a single POST wrapper; the second holds no logic.
- The other request helpers of `gister/gists.py` (`get_gist`, `post_gist`, `post_gist_non_text`, `update_gist`, `fork_gist`, `star_gist`, `delete_gist`): each is one HTTP call, JSON decoding, or shell and filesystem plumbing.
- The vault read that `libgist/gists.py` does when it is imported: file I/O with no behaviour to state.
- Vault JSON that decodes to something other than an object: `vault.keys()` would raise `AttributeError`, uncaught. The model's file is a name → entry map or `Malformed`.
- Vault.FetchCredentials: the `default` value is a boolean or missing. Python truthiness of other JSON values is not modelled.
- Vault.FetchCredentials: the key order in which `vault.keys()` visits entries is the parameter `order`; the contracts hold for every order.
- Vault.UpdateCredentials: requires `data` to hold `name` with a `default` key. The source raises `KeyError` otherwise; its only callers, the two `login` functions, always supply both.
- Vault.UpdateCredentials: a write failure is an `IOError` when the file is opened, which leaves it unchanged. A failure after `open(path, 'w')` has truncated the file is not modelled. The exact text `json.dumps(…, indent=4, sort_keys=True)` writes is not modelled: the file holds the map.
- Keyword defaults (`per_page=100`, `page_limit=2`, `api=None`, `since=None`, `starred=False`) are explicit parameters.
- GisterGists.GistHeader.ListGistPages: requires `leaf` to be `commits` or `forks`, the two functions it stands for.
- GisterGists.GistHeader: the other request helpers, which are not modelled, also update the shared headers. With a token they set `Authorization` as `Authorize` does (gister/gists.py:124-125 and the like). `star_gist` also sets `Content-Length: 0` whether or not a token is given (gister/gists.py:260), and that header then stays in every later call's headers; the model's header state does not include it.
- GisterGists.WalkPages: `params.update({'page': current})` is modelled by `Pager`, which sets the `page` parameter of each request. The params dictionary is not a mutable object shared across calls.
- GisterGists.EmailFrom: an `email` value that is JSON null is returned as `None`, like a missing key that the caught `KeyError` turns into `None`; both are `None` in the model.
- GisterGists.WalkPages: a page body is taken to be a JSON array. `pages.extend(response.json())` on a decoded object would add its keys; that is not modelled. The same holds for LibgistGists.WalkClamped.
- LibgistAuthorizations: the listing body is taken to be a JSON array. Iterating a decoded object would visit its keys and raise `TypeError`; that is not modelled.

- GisterAuthorizations.GetAuthorization: without ids it uses the corrected listing (`KeepListed`). The source as written raises `TypeError` there whenever a 200 listing is not empty; `ListingAsWritten` models that, and the Findings table records it.
- GisterAuthorizations.DeleteAuthorization: without ids it deletes what the corrected listing returns, for the same reason; as written, the call raises before any delete whenever a 200 listing is not empty.
- GisterAuthorizations.CountDeletes: the status of a delete is a function of the request, so the server answers identical requests identically. With an id listed twice, a real server answers 204 and then 404, and the call returns false; the model cannot express that. The same holds for LibgistAuthorizations.SendDeletes and for the page answers of the walkers.
- GisterGists.GetEmailAddr: `token` is a string. A `None` token makes `'token ' + token` raise `TypeError` (gister/gists.py:363); that is not modelled.
- GisterAuthorizations.NormaliseNote: the note from the prompt is modelled as bytes, and `lower` lowers ASCII letters only, as Python 2's `str.lower` does in the default locale. The encoding of the note into the JSON payload is not modelled.

## Findings

| source | as written | input that shows it | evidently intended | confidence | as-written member | corrected member |
|---|---|---|---|---|---|---|
| gister/authorizations.py:105-106 | the listing loop tests `str(data['note'])` on the decoded list itself, which raises `TypeError` (not caught) as soon as the list has an item, so listing and deleting this tool's authorizations without ids fails whenever any authorization exists | a 200 listing `[{"id": 1, "note": "gist-shell"}]` | test each item's own note (`authorization['note']`), as the by-id branch does, and keep the items whose note contains `gist-shell` | high; not executed | GisterAuthorizations.ListingAsWritten | GisterAuthorizations.KeepListed |
