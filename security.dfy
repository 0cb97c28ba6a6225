/** Password credentials: the salted hash the application stores instead of the
    plaintext, and the routine that checks a password against it. */
module Security {

  /** A stored credential: the salt it was derived with and the derived image. It is
      a different type from the plaintext, so a password can never be stored as is. */
  datatype PasswordHash = PasswordHash(salt: nat, digest: seq<int>)

  /** Stand-in for the key derivation inside the hashing library. It is injective in
      the password for a fixed salt, as a collision-free hash would be, but it is NOT
      one-way: each character can be recovered from the digest. The rest of the model
      relies on nothing but `Verify(Hash(p, s), p)` and `VerifyRejectsOtherPasswords`. */
  function Derive(salt: nat, password: string): seq<int>
  {
    seq(|password|, i requires 0 <= i < |password| => (password[i] as int) * (salt + 1) + i)
  }

  /** Derives the credential to store for `password`, using a caller-supplied salt
      (the random source of the hashing library). */
  function Hash(password: string, salt: nat): (h: PasswordHash)
    ensures h.salt == salt
    ensures Verify(h, password)
  {
    PasswordHash(salt, Derive(salt, password))
  }

  /** The matching verification routine: re-derives with the stored salt and compares. */
  predicate Verify(h: PasswordHash, password: string)
  {
    h.digest == Derive(h.salt, password)
  }

  /** A credential verifies a password exactly when hashing that password with the
      credential's own salt reproduces the credential. */
  lemma VerifyMatchesHash(h: PasswordHash, password: string)
    ensures Verify(h, password) <==> Hash(password, h.salt) == h
  {
  }

  /** The credential made from one password verifies that password and no other. */
  lemma VerifyRejectsOtherPasswords(password: string, other: string, salt: nat)
    ensures Verify(Hash(password, salt), other) <==> other == password
  {
    if Verify(Hash(password, salt), other) {
      var d, e := Derive(salt, password), Derive(salt, other);
      assert |other| == |e| == |d| == |password|;
      forall i | 0 <= i < |password|
        ensures other[i] == password[i]
      {
        assert e[i] == d[i];
        ScaleCancels(other[i] as int, password[i] as int, salt + 1);
      }
    }
  }

  /** Multiplying by a positive factor is injective. */
  lemma ScaleCancels(x: int, y: int, k: int)
    requires k > 0 && x * k == y * k
    ensures x == y
  {
    assert (x - y) * k == x * k - y * k;
  }
}
