/** The credential vault of the command-line tools: a JSON file mapping a
    name to `{"credentials": …, "default": …}`, read by `fetch_credentials`
    and rewritten by `update_credentials`. Both command-line tools carry the
    same two functions. */
module Vault {
  import opened Outcomes

  /** The `credentials` object one login stores; `username` is absent in the
      entries the `gister` tool writes. */
  datatype Credentials = Credentials(id: int, token: string, username: Option<string>, createdAt: string)

  /** One vault entry; `None` is a missing key. */
  datatype Entry = Entry(credentials: Option<Credentials>, isDefault: Option<bool>)

  /** A vault file that exists: one `open(path, 'r')` cannot open (no read
      permission, or the path is a directory: an `IOError` that neither
      function catches), JSON that does not decode, or the name → entry map. */
  datatype FileState = Unreadable | Malformed | Store(vault: map<string, Entry>)

  /** `order` lists the keys of `vault` once each: the order `vault.keys()` yields. */
  predicate KeyOrder(vault: map<string, Entry>, order: seq<string>) {
    (forall i :: 0 <= i < |order| ==> order[i] in vault) &&
    (forall k :: k in vault ==> k in order) &&
    (forall i, j :: 0 <= i < j < |order| ==> order[i] != order[j])
  }

  // ===================================================== fetch_credentials

  /** The `for _ in vault.keys()` scan for the default entry: the first entry
      whose `default` is true gives its `credentials`; an entry without a
      `default` key raises `KeyError` (caught: `None`). */
  function ScanDefault(vault: map<string, Entry>, order: seq<string>): (r: Option<Credentials>)
    requires forall i :: 0 <= i < |order| ==> order[i] in vault
    ensures r.Some? ==> exists i :: 0 <= i < |order| && vault[order[i]].isDefault == Some(true) &&
                          vault[order[i]].credentials == r &&
                          forall j :: 0 <= j < i ==> vault[order[j]].isDefault == Some(false)
    ensures (forall i :: 0 <= i < |order| ==> vault[order[i]].isDefault != Some(true)) ==> r.None?
    decreases |order|
  {
    if |order| == 0 then None
    else
      match vault[order[0]].isDefault
      case None => None
      case Some(true) => vault[order[0]].credentials
      case Some(false) =>
        var r := ScanDefault(vault, order[1..]);
        assert forall i :: 0 <= i < |order| - 1 ==> order[1..][i] == order[i + 1];
        r
  }

  /** `fetch_credentials(path, fetch)`: `file` is `None` when no vault file
      exists; `order` is the order in which the vault's keys are visited. */
  function FetchCredentials(file: Option<FileState>, fetch: Option<string>, order: seq<string>): (r: Outcome<Option<Credentials>>)
    requires file.Some? && file.value.Store? ==> KeyOrder(file.value.vault, order)
    ensures r.Raised? <==> file == Some(Unreadable)
    ensures file.None? || file == Some(Malformed) ==> r == Returned(None)
    ensures file.Some? && file.value.Store? && fetch.Some? ==>
      r == Returned(if fetch.value in file.value.vault then file.value.vault[fetch.value].credentials else None)
    ensures r.Returned? && r.value.Some? && fetch.None? ==>
      exists k :: k in file.value.vault && file.value.vault[k].isDefault == Some(true) && file.value.vault[k].credentials == r.value
  {
    if file.None? then Returned(None)
    else match file.value
      case Unreadable => Raised
      case Malformed => Returned(None)
      case Store(vault) =>
        if fetch.None? then
          // after the scan finds nothing, `vault[None]` raises `KeyError`: JSON keys are strings
          Returned(ScanDefault(vault, order))
        else if fetch.value in vault then Returned(vault[fetch.value].credentials)
        else Returned(None)
  }

  /** With several default entries, the first one visited wins. */
  lemma {:induction false} FirstDefaultWins(vault: map<string, Entry>, order: seq<string>, i: nat)
    requires KeyOrder(vault, order)
    requires i < |order| && vault[order[i]].isDefault == Some(true)
    requires forall j :: 0 <= j < i ==> vault[order[j]].isDefault == Some(false)
    ensures FetchCredentials(Some(Store(vault)), None, order) == Returned(vault[order[i]].credentials)
  {
    ScanDefaultAt(vault, order, i);
  }

  lemma {:induction false} ScanDefaultAt(vault: map<string, Entry>, order: seq<string>, i: nat)
    requires forall j :: 0 <= j < |order| ==> order[j] in vault
    requires i < |order| && vault[order[i]].isDefault == Some(true)
    requires forall j :: 0 <= j < i ==> vault[order[j]].isDefault == Some(false)
    ensures ScanDefault(vault, order) == vault[order[i]].credentials
    decreases i
  {
    if i > 0 {
      ScanDefaultAt(vault, order[1..], i - 1);
    }
  }

  /** An entry without a `default` key visited before any default entry makes
      the default lookup fail. */
  lemma {:induction false} MissingFlagEndsScan(vault: map<string, Entry>, order: seq<string>, i: nat)
    requires KeyOrder(vault, order)
    requires i < |order| && vault[order[i]].isDefault.None?
    requires forall j :: 0 <= j < i ==> vault[order[j]].isDefault == Some(false)
    ensures FetchCredentials(Some(Store(vault)), None, order) == Returned(None)
  {
    MissingFlagEndsScanFrom(vault, order, i);
  }

  lemma {:induction false} MissingFlagEndsScanFrom(vault: map<string, Entry>, order: seq<string>, i: nat)
    requires forall j :: 0 <= j < |order| ==> order[j] in vault
    requires i < |order| && vault[order[i]].isDefault.None?
    requires forall j :: 0 <= j < i ==> vault[order[j]].isDefault == Some(false)
    ensures ScanDefault(vault, order) == None
    decreases i
  {
    if i > 0 {
      MissingFlagEndsScanFrom(vault, order[1..], i - 1);
    }
  }

  // ==================================================== update_credentials

  /** The map `update_credentials` starts from: the stored one, or `{}` when
      the file is missing or does not decode (an unreadable file raises first). */
  function Loaded(file: Option<FileState>): map<string, Entry> {
    if file.Some? && file.value.Store? then file.value.vault else map[]
  }

  /** `vault[_].update({'default': False})` where the flag is true. */
  function Cleared(e: Entry): (c: Entry)
    ensures c.credentials == e.credentials
    ensures c.isDefault.Some? <==> e.isDefault.Some?
    ensures c.isDefault != Some(true)
  {
    if e.isDefault == Some(true) then e.(isDefault := Some(false)) else e
  }

  /** The vault `update_credentials` writes, `None` where it returns `None`
      before writing, or `Raised` where reading the file raises. */
  function UpdatedVault(file: Option<FileState>, data: map<string, Entry>, name: string, force: bool): (r: Outcome<Option<map<string, Entry>>>)
    requires name in data && data[name].isDefault.Some?
    ensures r.Raised? <==> file == Some(Unreadable)
    ensures r.Returned? && r.value.Some? ==> forall k :: k in data ==> k in r.value.value && r.value.value[k] == data[k]
  {
    if file == Some(Unreadable) then Raised
    else
      var vault := Loaded(file);
      if name in vault && !force then Returned(None)
      else if !data[name].isDefault.value then Returned(Some(vault + data))
      else if exists k :: k in vault && vault[k].isDefault.None? then Returned(None)
      else Returned(Some((map k | k in vault :: Cleared(vault[k])) + data))
  }

  /** `update_credentials(data, name, path, force)`. `writeFails` says
      whether opening the file for writing raises `IOError` (caught);
      `file'` is the file afterwards. */
  method UpdateCredentials(file: Option<FileState>, data: map<string, Entry>, name: string, force: bool, writeFails: bool)
    returns (result: Outcome<Option<map<string, Entry>>>, file': Option<FileState>)
    requires name in data && data[name].isDefault.Some?
    ensures result.Raised? <==> file == Some(Unreadable)
    ensures result.Returned? ==>
      (result.value.Some? <==> UpdatedVault(file, data, name, force).value.Some? && !writeFails)
    ensures result.Returned? && result.value.Some? ==>
      result == UpdatedVault(file, data, name, force) && file' == Some(Store(result.value.value))
    ensures !(result.Returned? && result.value.Some?) ==> file' == file
  {
    if file == Some(Unreadable) {
      return Raised, file;
    }
    var vault := Loaded(file);
    if name in vault && !force {
      return Returned(None), file;
    }
    if data[name].isDefault.value {
      ghost var stored := vault;
      var remaining := vault.Keys;
      while remaining != {}
        invariant remaining <= stored.Keys && vault.Keys == stored.Keys
        invariant forall k :: k in stored ==> vault[k] == if k in remaining then stored[k] else Cleared(stored[k])
        invariant forall k :: k in stored && k !in remaining ==> stored[k].isDefault.Some?
        decreases remaining
      {
        var k :| k in remaining;
        if vault[k].isDefault.None? {
          if force {
            vault := map[];  // dead: the return follows
          }
          return Returned(None), file;
        }
        if vault[k].isDefault.value {
          vault := vault[k := vault[k].(isDefault := Some(false))];
        }
        remaining := remaining - {k};
      }
      assert vault == map k | k in stored :: Cleared(stored[k]);
    }
    vault := vault + data;
    if writeFails {
      return Returned(None), file;
    }
    return Returned(Some(vault)), Some(Store(vault));
  }

  // ============================================================ properties

  /** A stored name is not overwritten without `force`, and nothing is written. */
  lemma ConflictWritesNothing(file: Option<FileState>, data: map<string, Entry>, name: string)
    requires name in data && data[name].isDefault.Some?
    requires name in Loaded(file)
    ensures UpdatedVault(file, data, name, false) == Returned(None)
  {
  }

  /** When the incoming entry is the default, an existing entry without a
      `default` key stops the update, with or without `force`. */
  lemma MissingFlagStopsUpdate(file: Option<FileState>, data: map<string, Entry>, name: string, force: bool, k: string)
    requires name in data && data[name].isDefault == Some(true)
    requires k in Loaded(file) && Loaded(file)[k].isDefault.None?
    ensures UpdatedVault(file, data, name, force) == Returned(None)
  {
  }

  /** A vault file that does not decode is replaced by `data`, whatever `force` says. */
  lemma MalformedFileReplaced(data: map<string, Entry>, name: string, force: bool)
    requires name in data && data[name].isDefault.Some?
    ensures UpdatedVault(Some(Malformed), data, name, force) == Returned(Some(data))
  {
    var empty: map<string, Entry> := map[];
    assert (map k | k in empty :: Cleared(empty[k])) == empty;
    assert empty + data == data;
  }

  /** The shape of a successful update `r`: the keys are the old ones and
      those of `data`; every entry of `data` is stored whole; every other
      entry keeps its credentials and its flag, except that an incoming
      default clears every other default flag. */
  lemma UpdateShape(file: Option<FileState>, data: map<string, Entry>, name: string, force: bool, r: map<string, Entry>)
    requires name in data && data[name].isDefault.Some?
    requires UpdatedVault(file, data, name, force) == Returned(Some(r))
    ensures var vault := Loaded(file);
      r.Keys == vault.Keys + data.Keys &&
      (forall k :: k in data ==> r[k] == data[k]) &&
      (forall k :: k in vault && k !in data ==>
        r[k] == if data[name].isDefault.value then Cleared(vault[k]) else vault[k]) &&
      (data[name].isDefault.value ==> forall k :: k in vault && k !in data ==> r[k].isDefault == Some(false))
  {
    var vault := Loaded(file);
    if data[name].isDefault.value {
      forall k | k in vault && k !in data
        ensures r[k].isDefault == Some(false)
      {
        assert r[k] == Cleared(vault[k]);
        assert !Cleared(vault[k]).isDefault.value;
      }
    }
  }

  /** Storing one default entry leaves exactly one default: `name`. */
  lemma OneDefaultRemains(file: Option<FileState>, e: Entry, name: string, force: bool, r: map<string, Entry>)
    requires e.isDefault == Some(true)
    requires UpdatedVault(file, map[name := e], name, force) == Returned(Some(r))
    ensures name in r && forall k :: k in r ==> (r[k].isDefault == Some(true) <==> k == name)
  {
    UpdateShape(file, map[name := e], name, force, r);
  }

  /** After a successful update, looking the name up yields the stored credentials. */
  lemma FetchAfterUpdate(file: Option<FileState>, e: Entry, name: string, force: bool, r: map<string, Entry>, order: seq<string>)
    requires e.isDefault.Some?
    requires UpdatedVault(file, map[name := e], name, force) == Returned(Some(r))
    requires KeyOrder(r, order)
    ensures FetchCredentials(Some(Store(r)), Some(name), order) == Returned(e.credentials)
  {
    UpdateShape(file, map[name := e], name, force, r);
  }

  /** After a successful update with a default entry, the default lookup
      yields its credentials, whatever order the keys are visited in. */
  lemma DefaultFetchAfterUpdate(file: Option<FileState>, e: Entry, name: string, force: bool, r: map<string, Entry>, order: seq<string>)
    requires e.isDefault == Some(true)
    requires UpdatedVault(file, map[name := e], name, force) == Returned(Some(r))
    requires KeyOrder(r, order)
    ensures FetchCredentials(Some(Store(r)), None, order) == Returned(e.credentials)
  {
    UpdateShape(file, map[name := e], name, force, r);
    var i :| 0 <= i < |order| && order[i] == name;
    forall j | 0 <= j < i
      ensures r[order[j]].isDefault == Some(false)
    {
      assert order[j] != name;
    }
    FirstDefaultWins(r, order, i);
  }

  /** A vault file that exists but cannot be read makes both functions raise,
      though the docstring of `update_credentials` promises `None` for
      incorrect file permissions: only the write's `IOError` is caught. */
  lemma UnreadableVaultRaises(data: map<string, Entry>, name: string, force: bool, fetch: Option<string>, order: seq<string>)
    requires name in data && data[name].isDefault.Some?
    ensures FetchCredentials(Some(Unreadable), fetch, order) == Raised
    ensures UpdatedVault(Some(Unreadable), data, name, force) == Raised
  {
  }
}
