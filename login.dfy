/** What `login` does with a created authorization: it stores one vault
    entry under the application's name, forcing the write exactly when the
    entry is to become the default. The prompts, the password and the HTTP
    call itself are not part of this model. */
module Login {
  import opened Outcomes
  import opened Vault

  /** The fields of the created authorization that `login` reads. */
  datatype Authorization = Authorization(appName: string, id: int, token: string, createdAt: string)

  /** The `to_write` map: the `gist` tool stores the login `username`
      (`Some`), the `gister` tool leaves that key out (`None`). */
  function LoginRecord(auth: Authorization, username: Option<string>, isDefault: bool): (data: map<string, Entry>)
    ensures data.Keys == {auth.appName}
    ensures data[auth.appName].isDefault == Some(isDefault)
    ensures data[auth.appName].credentials == Some(Credentials(auth.id, auth.token, username, auth.createdAt))
  {
    map[auth.appName := Entry(Some(Credentials(auth.id, auth.token, username, auth.createdAt)), Some(isDefault))]
  }

  /** `login(path, api, default)` after the prompts: `created` is the status
      flag of `create_authorization`. The call reports success whenever the
      authorization was created, whether or not the vault was written; it
      raises when the vault file exists but cannot be read. */
  method Login(file: Option<FileState>, created: bool, auth: Authorization, username: Option<string>, isDefault: bool, writeFails: bool)
    returns (ok: Outcome<bool>, file': Option<FileState>)
    ensures ok == if created && file == Some(Unreadable) then Raised else Returned(created)
    ensures var stored := UpdatedVault(file, LoginRecord(auth, username, isDefault), auth.appName, isDefault);
      file' == if created && stored.Returned? && stored.value.Some? && !writeFails then Some(Store(stored.value.value)) else file
  {
    if !created {
      return Returned(false), file;
    }
    var data := LoginRecord(auth, username, isDefault);
    var updated, written := UpdateCredentials(file, data, auth.appName, isDefault, writeFails);
    if updated.Raised? {
      return Raised, written;
    }
    return Returned(true), written;
  }

  /** A default login replaces any entry of the same name and becomes the
      only default: afterwards both the lookup by name and the default lookup
      yield its credentials, unless a stored entry lacks its `default` key. */
  lemma DefaultLoginTakesOver(file: Option<FileState>, auth: Authorization, username: Option<string>, order: seq<string>)
    requires forall k :: k in Loaded(file) ==> Loaded(file)[k].isDefault.Some?
    ensures var stored := UpdatedVault(file, LoginRecord(auth, username, true), auth.appName, true);
      (stored.Raised? <==> file == Some(Unreadable)) &&
      (stored.Returned? ==>
        stored.value.Some? &&
        (KeyOrder(stored.value.value, order) ==>
          FetchCredentials(Some(Store(stored.value.value)), Some(auth.appName), order) == Returned(Some(Credentials(auth.id, auth.token, username, auth.createdAt))) &&
          FetchCredentials(Some(Store(stored.value.value)), None, order) == Returned(Some(Credentials(auth.id, auth.token, username, auth.createdAt)))))
  {
    var e := LoginRecord(auth, username, true)[auth.appName];
    assert LoginRecord(auth, username, true) == map[auth.appName := e];
    var stored := UpdatedVault(file, LoginRecord(auth, username, true), auth.appName, true);
    if stored.Returned? && KeyOrder(stored.value.value, order) {
      FetchAfterUpdate(file, e, auth.appName, true, stored.value.value, order);
      DefaultFetchAfterUpdate(file, e, auth.appName, true, stored.value.value, order);
    }
  }

  /** A non-default login under a name already stored writes nothing: the
      stored entry is kept. */
  lemma RepeatedLoginKeepsEntry(file: Option<FileState>, auth: Authorization, username: Option<string>)
    requires auth.appName in Loaded(file)
    ensures UpdatedVault(file, LoginRecord(auth, username, false), auth.appName, false) == Returned(None)
  {
    ConflictWritesNothing(file, LoginRecord(auth, username, false), auth.appName);
  }
}
