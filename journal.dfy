/**
 * The request handlers of the journal application, as methods of a store that
 * holds the two tables (users by username, entries by id), the session slot of
 * the one client making requests, and a clock.
 *
 * Each method is one route: it returns the response the handler produces (a
 * redirect with its flash message, a rendered page, a file download, a 404 or
 * the 500 of a crashed handler) and changes the tables and the session as the
 * handler does. Requests are handled one at a time.
 */
module Journal {
  import opened Options
  import opened Forms
  import opened Accounts
  import opened Entries

  /** The targets of `redirect(url_for(...))`. */
  datatype Route = LoginRoute | RegisterRoute | IndexRoute | EntryRoute(id: nat)

  /** The flash message a response carries, by meaning rather than wording. */
  datatype Notice =
    | LoginRequired | UserNotFound | UsernameTaken | Registered | Welcome | BadCredentials
    | LoggedOut | EntryAdded | NotPermitted | EntryUpdated | EntryDeleted

  /** The rendered templates and the data handed to them. */
  datatype Page =
    | IndexPage(username: string, rows: seq<Record>)
    | RegisterPage
    | LoginPage
    | ProfilePage(username: string, entryCount: nat)
    | AddPage
    | EntryPage(id: nat, entry: Entry)
    | EditPage(id: nat, entry: Entry)

  datatype Response =
    | Redirect(to: Route, notice: Notice)
    | Render(page: Page, message: Option<Notice>)
    | Download(csv: seq<seq<Field>>)
      /** `get_or_404` on an id with no row. */
    | NotFound
      /** The handler read `user.id` of a session user that has no row. */
    | ServerError

  const LOGIN_REQUIRED := Redirect(LoginRoute, LoginRequired)

  /** A scan moves one key from the pending keys to the scanned ones. */
  lemma MoveOne(done: set<nat>, pending: set<nat>, id: nat)
    requires done !! pending && id in pending
    ensures id !in done
    ensures (done + {id}) !! (pending - {id})
    ensures (done + {id}) + (pending - {id}) == done + pending
  {
  }

  class Store {
    const kdf: Kdf
    var users: map<string, User>
    var entries: map<nat, Entry>
    var session: Option<string>
    var clock: nat
    var nextUserId: nat
    var nextEntryId: nat

    /**
     * The users table: keyed by each user's own username, ids unique and below
     * the next one, and a password hash stored for every user.
     */
    ghost predicate UsersValid()
      reads this`users, this`nextUserId, users.Values
    {
      && 1 <= nextUserId
      && (forall name :: name in users ==>
            users[name].username == name && 1 <= users[name].id < nextUserId && users[name].passwordHash.Some?)
      && (forall a, b :: a in users && b in users && users[a].id == users[b].id ==> a == b)
    }

    /** The entries table: ids below the next one, timestamps in order and no later than the clock. */
    ghost predicate EntriesValid()
      reads this`entries, this`nextEntryId, this`clock
    {
      && 1 <= nextEntryId
      && forall id :: id in entries ==> 1 <= id < nextEntryId && Stamped(entries[id], clock)
    }

    ghost predicate Valid()
      reads this, users.Values
    {
      UsersValid() && EntriesValid()
    }

    /**
     * A session set by a login of this store names a stored user. A session
     * cookie may also come from elsewhere (an earlier database, say), so this is
     * kept apart from Valid(): the handlers are specified without it.
     */
    ghost predicate SessionSound()
      reads this
    {
      session.Some? ==> session.value in users
    }

    /** The session user owns entry `id`: the ownership check passes. */
    ghost predicate Owns(name: string, id: nat)
      reads this
    {
      name in users && id in entries && entries[id].userId == Some(users[name].id)
    }

    /** Empty tables; `cookie` is the session the client arrives with. */
    constructor (kdf: Kdf, cookie: Option<string>)
      ensures Valid()
      ensures this.kdf == kdf && users == map[] && entries == map[] && session == cookie
      ensures clock == 0 && nextUserId == 1 && nextEntryId == 1
    {
      this.kdf := kdf;
      users, entries, session := map[], map[], cookie;
      clock, nextUserId, nextEntryId := 0, 1, 1;
    }

    /** Time passes between requests. */
    method Tick()
      requires Valid()
      modifies this`clock
      ensures Valid() && clock == old(clock) + 1
    {
      clock := clock + 1;
    }

    // -------------------------------------------------------------------------
    // Queries

    /** `Entry.query.filter_by(user_id=uid).all()`: the owned rows, in no particular order. */
    method SelectOwned(uid: nat) returns (rows: seq<Record>)
      ensures multiset(rows) == multiset(Owned(entries, uid))
    {
      rows := [];
      var done, pending := {}, entries.Keys;
      while pending != {}
        invariant done !! pending && done + pending == entries.Keys
        invariant multiset(rows) == multiset(OwnedAmong(entries, done, uid))
        decreases pending
      {
        var id :| id in pending;
        MoveOne(done, pending, id);
        OwnedAmongCount(entries, done, id, uid);
        if entries[id].userId == Some(uid) {
          rows := rows + [Record(id, entries[id])];
        }
        done, pending := done + {id}, pending - {id};
      }
      assert done == entries.Keys;
    }

    /** `Entry.query.filter_by(user_id=uid).count()`. */
    method CountOwned(uid: nat) returns (count: nat)
      ensures count == |Owned(entries, uid)|
    {
      count := 0;
      var done, pending := {}, entries.Keys;
      while pending != {}
        invariant done !! pending && done + pending == entries.Keys
        invariant count == |OwnedAmong(entries, done, uid)|
        decreases pending
      {
        var id :| id in pending;
        MoveOne(done, pending, id);
        OwnedAmongCount(entries, done, id, uid);
        if entries[id].userId == Some(uid) {
          count := count + 1;
        }
        done, pending := done + {id}, pending - {id};
      }
      assert done == entries.Keys;
    }

    // -------------------------------------------------------------------------
    // Accounts

    /**
     * `register`: a valid form with a new username adds exactly one user, with
     * a fresh id and the submitted password; a taken username changes nothing.
     */
    method Register(post: bool, username: string, password: string, salt: string) returns (r: Response)
      requires Valid()
      modifies this`users, this`nextUserId
      ensures Valid()
      ensures !CredentialsFormValid(post, username, password) ==>
        r == Render(RegisterPage, None) && users == old(users) && nextUserId == old(nextUserId)
      ensures CredentialsFormValid(post, username, password) && username in old(users) ==>
        r == Redirect(RegisterRoute, UsernameTaken) && users == old(users) && nextUserId == old(nextUserId)
      ensures CredentialsFormValid(post, username, password) && username !in old(users) ==>
        && r == Redirect(LoginRoute, Registered)
        && users.Keys == old(users).Keys + {username}
        && (forall name :: name in old(users) ==> users[name] == old(users)[name])
        && fresh(users[username])
        && users[username].id == old(nextUserId)
        && users[username].passwordHash == Some(Derive(kdf, salt, password))
        && users[username].CheckPassword(kdf, password)
      ensures old(SessionSound()) ==> SessionSound()
    {
      if !CredentialsFormValid(post, username, password) {
        return Render(RegisterPage, None);
      }
      if username in users {
        return Redirect(RegisterRoute, UsernameTaken);
      }
      var user := new User(nextUserId, username);
      user.SetPassword(kdf, password, salt);
      users := users[username := user];
      nextUserId := nextUserId + 1;
      r := Redirect(LoginRoute, Registered);
    }

    /**
     * `login`: the session is set to the username exactly when the form is
     * valid, the user exists and the password checks; otherwise it is unchanged.
     */
    method Login(post: bool, username: string, password: string) returns (r: Response)
      requires Valid()
      modifies this`session
      ensures Valid()
      ensures !CredentialsFormValid(post, username, password) ==>
        r == Render(LoginPage, None) && session == old(session)
      ensures CredentialsFormValid(post, username, password) ==>
        if username in users && users[username].CheckPassword(kdf, password)
        then r == Redirect(IndexRoute, Welcome) && session == Some(username)
        else r == Render(LoginPage, Some(BadCredentials)) && session == old(session)
      ensures old(SessionSound()) ==> SessionSound()
    {
      if !CredentialsFormValid(post, username, password) {
        return Render(LoginPage, None);
      }
      if username in users && users[username].CheckPassword(kdf, password) {
        session := Some(users[username].username);
        r := Redirect(IndexRoute, Welcome);
      } else {
        r := Render(LoginPage, Some(BadCredentials));
      }
    }

    /** `logout`: the session is empty afterwards, whatever it held. */
    method Logout() returns (r: Response)
      requires Valid()
      modifies this`session
      ensures Valid() && SessionSound()
      ensures session == None && r == Redirect(LoginRoute, LoggedOut)
    {
      session := None;
      r := Redirect(LoginRoute, LoggedOut);
    }

    /** `profile`: the only handler that checks the session user exists. */
    method Profile() returns (r: Response)
      requires Valid()
      ensures session.None? ==> r == LOGIN_REQUIRED
      ensures session.Some? && session.value !in users ==> r == Redirect(LoginRoute, UserNotFound)
      ensures session.Some? && session.value in users ==>
        r == Render(ProfilePage(session.value, |Owned(entries, users[session.value].id)|), None)
      ensures r != ServerError
    {
      if session.None? {
        return LOGIN_REQUIRED;
      }
      var name := session.value;
      if name !in users {
        return Redirect(LoginRoute, UserNotFound);
      }
      var count := CountOwned(users[name].id);
      r := Render(ProfilePage(name, count), None);
    }

    // -------------------------------------------------------------------------
    // Entries

    /**
     * `index`: exactly the session user's entries, each once, newest first.
     * A session naming no user crashes the handler.
     */
    method Index() returns (r: Response)
      requires Valid()
      ensures session.None? ==> r == LOGIN_REQUIRED
      ensures session.Some? && session.value !in users ==> r == ServerError
      ensures session.Some? && session.value in users ==>
        && r.Render? && r.message == None && r.page.IndexPage?
        && r.page.username == session.value
        && NewestFirst(r.page.rows)
        && multiset(r.page.rows) == multiset(Owned(entries, users[session.value].id))
      ensures SessionSound() ==> r != ServerError
    {
      if session.None? {
        return LOGIN_REQUIRED;
      }
      var name := session.value;
      if name !in users {
        return ServerError;
      }
      var rows := SelectOwned(users[name].id);
      r := Render(IndexPage(name, SortNewestFirst(rows)), None);
    }

    /**
     * `add_entry`: a valid form adds exactly one entry under a fresh id, owned
     * by the session user and stamped with the current time; every existing
     * entry is unchanged. The session user is looked up only for a valid form.
     */
    method AddEntry(post: bool, title: string, content: string, tags: string) returns (r: Response)
      requires Valid()
      modifies this`entries, this`nextEntryId
      ensures Valid()
      ensures session.None? ==>
        r == LOGIN_REQUIRED && entries == old(entries) && nextEntryId == old(nextEntryId)
      ensures session.Some? && !EntryFormValid(post, title, content) ==>
        r == Render(AddPage, None) && entries == old(entries) && nextEntryId == old(nextEntryId)
      ensures session.Some? && EntryFormValid(post, title, content) && session.value !in users ==>
        r == ServerError && entries == old(entries) && nextEntryId == old(nextEntryId)
      ensures session.Some? && EntryFormValid(post, title, content) && session.value in users ==>
        && r == Redirect(IndexRoute, EntryAdded)
        && nextEntryId == old(nextEntryId) + 1
        && old(nextEntryId) !in old(entries)
        && entries == old(entries)[old(nextEntryId) := NewEntry(title, content, tags, users[session.value].id, clock)]
      ensures SessionSound() ==> r != ServerError
    {
      if session.None? {
        return LOGIN_REQUIRED;
      }
      if !EntryFormValid(post, title, content) {
        return Render(AddPage, None);
      }
      var name := session.value;
      if name !in users {
        return ServerError;
      }
      var id, entry := nextEntryId, NewEntry(title, content, tags, users[name].id, clock);
      entries := entries[id := entry];
      nextEntryId := nextEntryId + 1;
      assert UsersValid();
      assert EntriesValid() by {
        forall k | k in entries ensures 1 <= k < nextEntryId && Stamped(entries[k], clock) {
          if k != id { assert k in old(entries); }
        }
      }
      r := Redirect(IndexRoute, EntryAdded);
    }

    /**
     * `view_entry`: a missing id is a 404 before the session user is looked up;
     * an entry of another user is refused; only the owner sees the entry.
     */
    method ViewEntry(id: nat) returns (r: Response)
      requires Valid()
      ensures session.None? ==> r == LOGIN_REQUIRED
      ensures session.Some? && id !in entries ==> r == NotFound
      ensures session.Some? && id in entries && session.value !in users ==> r == ServerError
      ensures session.Some? && id in entries && session.value in users ==>
        r == if Owns(session.value, id) then Render(EntryPage(id, entries[id]), None)
             else Redirect(IndexRoute, NotPermitted)
      ensures r.Render? ==> session.Some? && Owns(session.value, id)
    {
      if session.None? {
        return LOGIN_REQUIRED;
      }
      if id !in entries {
        return NotFound;
      }
      var name := session.value;
      if name !in users {
        return ServerError;
      }
      if entries[id].userId != Some(users[name].id) {
        return Redirect(IndexRoute, NotPermitted);
      }
      r := Render(EntryPage(id, entries[id]), None);
    }

    /**
     * `edit_entry`: past the login, existence and ownership gates, a valid form
     * overwrites title, content and tags of that one entry; its id, owner and
     * creation time, and every other entry, are unchanged.
     */
    method EditEntry(id: nat, post: bool, title: string, content: string, tags: string) returns (r: Response)
      requires Valid()
      modifies this`entries
      ensures Valid()
      ensures session.None? ==> r == LOGIN_REQUIRED && entries == old(entries)
      ensures session.Some? && id !in old(entries) ==> r == NotFound && entries == old(entries)
      ensures session.Some? && id in old(entries) && session.value !in users ==>
        r == ServerError && entries == old(entries)
      ensures session.Some? && id in old(entries) && session.value in users && !old(Owns(session.value, id)) ==>
        r == Redirect(IndexRoute, NotPermitted) && entries == old(entries)
      ensures session.Some? && old(Owns(session.value, id)) && !EntryFormValid(post, title, content) ==>
        r == Render(EditPage(id, old(entries)[id]), None) && entries == old(entries)
      ensures session.Some? && old(Owns(session.value, id)) && EntryFormValid(post, title, content) ==>
        && r == Redirect(EntryRoute(id), EntryUpdated)
        && entries == old(entries)[id := Edited(old(entries)[id], title, content, tags, clock)]
      ensures entries != old(entries) ==> session.Some? && old(Owns(session.value, id))
    {
      if session.None? {
        return LOGIN_REQUIRED;
      }
      if id !in entries {
        return NotFound;
      }
      var name := session.value;
      if name !in users {
        return ServerError;
      }
      if entries[id].userId != Some(users[name].id) {
        return Redirect(IndexRoute, NotPermitted);
      }
      if !EntryFormValid(post, title, content) {
        return Render(EditPage(id, entries[id]), None);
      }
      EditKeepsStamps(entries[id], title, content, tags, clock);
      entries := entries[id := Edited(entries[id], title, content, tags, clock)];
      r := Redirect(EntryRoute(id), EntryUpdated);
    }

    /**
     * `delete_entry`: past the login, existence and ownership gates, exactly
     * that entry is removed and every other entry is unchanged.
     */
    method DeleteEntry(id: nat) returns (r: Response)
      requires Valid()
      modifies this`entries
      ensures Valid()
      ensures session.None? ==> r == LOGIN_REQUIRED && entries == old(entries)
      ensures session.Some? && id !in old(entries) ==> r == NotFound && entries == old(entries)
      ensures session.Some? && id in old(entries) && session.value !in users ==>
        r == ServerError && entries == old(entries)
      ensures session.Some? && id in old(entries) && session.value in users && !old(Owns(session.value, id)) ==>
        r == Redirect(IndexRoute, NotPermitted) && entries == old(entries)
      ensures session.Some? && old(Owns(session.value, id)) ==>
        && r == Redirect(IndexRoute, EntryDeleted)
        && entries == old(entries) - {id}
        && |entries| == |old(entries)| - 1
    {
      if session.None? {
        return LOGIN_REQUIRED;
      }
      if id !in entries {
        return NotFound;
      }
      var name := session.value;
      if name !in users {
        return ServerError;
      }
      if entries[id].userId != Some(users[name].id) {
        return Redirect(IndexRoute, NotPermitted);
      }
      assert (entries - {id}).Keys == entries.Keys - {id};
      entries := entries - {id};
      r := Redirect(IndexRoute, EntryDeleted);
    }

    /**
     * `export_entries`: a CSV of the header and one row per entry of the
     * session user, written one row at a time.
     */
    method ExportEntries() returns (r: Response)
      requires Valid()
      ensures session.None? ==> r == LOGIN_REQUIRED
      ensures session.Some? && session.value !in users ==> r == ServerError
      ensures session.Some? && session.value in users ==>
        r.Download? && IsExportOf(r.csv, Owned(entries, users[session.value].id))
      ensures SessionSound() ==> r != ServerError
    {
      if session.None? {
        return LOGIN_REQUIRED;
      }
      var name := session.value;
      if name !in users {
        return ServerError;
      }
      var rows := SelectOwned(users[name].id);
      var csv := [HEADER];
      for i := 0 to |rows|
        invariant csv == [HEADER] + ExportRows(rows[..i])
      {
        assert ExportRows(rows[..i + 1]) == ExportRows(rows[..i]) + [ExportRow(rows[i])];
        csv := csv + [ExportRow(rows[i])];
      }
      assert rows[..|rows|] == rows;
      r := Download(csv);
    }
  }
}
