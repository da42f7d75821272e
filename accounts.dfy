/**
 * The `User` model: a username and a salted password hash.
 *
 * The hashing library is replaced by an abstract key-derivation function from a
 * salt and a password to a digest. Setting a password stores the salt and the
 * digest; checking a password derives the digest again with the stored salt
 * and compares.
 */
module Accounts {
  import opened Options

  /** A key-derivation function: (salt, password) to digest. */
  type Kdf = (string, string) -> string

  datatype PasswordHash = PasswordHash(salt: string, digest: string)

  /** `generate_password_hash`, with the random salt made a parameter. */
  function Derive(kdf: Kdf, salt: string, password: string): (h: PasswordHash)
    ensures h.salt == salt
    ensures Verify(kdf, h, password)
  {
    PasswordHash(salt, kdf(salt, password))
  }

  /** `check_password_hash`: derive again with the stored salt and compare. */
  predicate Verify(kdf: Kdf, hash: PasswordHash, password: string)
  {
    kdf(hash.salt, password) == hash.digest
  }

  /** With a collision-free derivation, only the original password checks. */
  lemma OnlyThePasswordVerifies(kdf: Kdf, salt: string, password: string, attempt: string)
    requires forall a, b :: kdf(salt, a) == kdf(salt, b) ==> a == b
    ensures Verify(kdf, Derive(kdf, salt, password), attempt) <==> attempt == password
  {
  }

  class User {
    const id: nat
    const username: string
    /** Empty until `SetPassword` is called; the column is not nullable once stored. */
    var passwordHash: Option<PasswordHash>

    constructor (id: nat, username: string)
      ensures this.id == id && this.username == username && passwordHash == None
    {
      this.id := id;
      this.username := username;
      passwordHash := None;
    }

    /** `set_password`: replaces the stored hash, after which the password checks. */
    method SetPassword(kdf: Kdf, password: string, salt: string)
      modifies this
      ensures passwordHash == Some(Derive(kdf, salt, password))
      ensures CheckPassword(kdf, password)
    {
      passwordHash := Some(Derive(kdf, salt, password));
    }

    /** `check_password`. */
    predicate CheckPassword(kdf: Kdf, password: string)
      reads this
      requires passwordHash.Some?
    {
      Verify(kdf, passwordHash.value, password)
    }

    /** After `set_password(p)` with a collision-free derivation, `check_password` accepts `p` and nothing else. */
    lemma OnlyThePasswordChecks(kdf: Kdf, salt: string, password: string, attempt: string)
      requires passwordHash == Some(Derive(kdf, salt, password))
      requires forall a, b :: kdf(salt, a) == kdf(salt, b) ==> a == b
      ensures CheckPassword(kdf, attempt) <==> attempt == password
    {
      OnlyThePasswordVerifies(kdf, salt, password, attempt);
    }
  }
}
