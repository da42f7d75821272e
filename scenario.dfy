/**
 * A client of the store: two users, one entry, and what each of them is
 * allowed to do with it, derived from the handlers' specifications alone.
 */
module Scenario {
  import opened Options
  import opened Tags
  import opened Forms
  import opened Accounts
  import opened Entries
  import opened Journal

  /** Alice registers, fails to log in with a wrong password, then logs in. */
  method AliceLogsIn(kdf: Kdf) returns (store: Store)
    requires forall salt, a, b :: kdf(salt, a) == kdf(salt, b) ==> a == b
    ensures fresh(store) && store.Valid()
    ensures "alice" in store.users && store.session == Some("alice")
  {
    store := new Store(kdf, None);
    assert CredentialsFormValid(true, "alice", "secret123") by {
      assert !IsSpace("alice"[0]) && !IsSpace("secret123"[0]);
    }
    var r := store.Register(true, "alice", "secret123", "s1");
    assert r == Redirect(LoginRoute, Registered);

    assert CredentialsFormValid(true, "alice", "wrong") by {
      assert !IsSpace("wrong"[0]);
    }
    OnlyThePasswordVerifies(kdf, "s1", "secret123", "wrong");
    r := store.Login(true, "alice", "wrong");
    assert store.session == None;
    r := store.Login(true, "alice", "secret123");
  }

  /** Alice writes an entry tagged "outdoors, hiking"; it is hers and carries two tags. */
  method AliceWritesAnEntry(store: Store) returns (id: nat)
    requires store.Valid() && "alice" in store.users && store.session == Some("alice")
    modifies store
    ensures store.Valid() && store.Owns("alice", id)
    ensures store.entries[id].tags == "outdoors, hiking"
  {
    assert EntryFormValid(true, "Day 1", "Went hiking") by {
      assert !IsSpace("Day 1"[0]) && !IsSpace("Went hiking"[0]);
    }
    id := store.nextEntryId;
    var r := store.AddEntry(true, "Day 1", "Went hiking", "outdoors, hiking");
    assert r == Redirect(IndexRoute, EntryAdded);
  }

  /** Bob registers and logs in next to alice; his id differs from hers. */
  method BobLogsIn(store: Store)
    requires store.Valid() && "alice" in store.users && "bob" !in store.users
    modifies store
    ensures store.Valid() && store.session == Some("bob")
    ensures "alice" in store.users && "bob" in store.users
    ensures store.users["alice"] == old(store.users["alice"])
    ensures store.users["bob"].id != store.users["alice"].id
    ensures store.entries == old(store.entries)
  {
    assert CredentialsFormValid(true, "bob", "hunter22") by {
      assert !IsSpace("bob"[0]) && !IsSpace("hunter22"[0]);
    }
    var r := store.Register(true, "bob", "hunter22", "s2");
    r := store.Login(true, "bob", "hunter22");
  }

  /** Alice's entry can be neither viewed nor deleted by bob. */
  method BobIsRefused(store: Store, id: nat)
    requires store.Valid() && store.Owns("alice", id) && "bob" !in store.users
    modifies store
    ensures store.Valid() && store.session == Some("bob")
    ensures store.entries == old(store.entries) && store.Owns("alice", id)
  {
    BobLogsIn(store);
    var before := store.entries;
    var r := store.ViewEntry(id);
    assert r == Redirect(IndexRoute, NotPermitted);
    r := store.DeleteEntry(id);
    assert r == Redirect(IndexRoute, NotPermitted) && store.entries == before;
  }
}
