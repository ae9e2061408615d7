/** The password hasher (golang.org/x/crypto/bcrypt), as a stand-in with the
    two properties the service relies on: a hash verifies against the password
    it was made from, and against no other password.

    A hash is bcrypt's textual form `$2a$<cost>$<salt><digest>`; in the
    stand-in the salt is one character and the digest is the password itself. */
module Bcrypt {
  import opened Errors

  /** The hash text up to the salt: version 2a and bcrypt.DefaultCost, 10. */
  const Prefix := "$2a$10$"

  /** The longest password bcrypt accepts, in bytes. */
  const MaxPasswordLength := 72

  /** bcrypt.ErrPasswordTooLong's text. */
  const PasswordTooLong := "bcrypt: password length exceeds 72 bytes"

  /** What the random source yields when a hash is generated. */
  datatype Entropy = Salt(salt: char) | Exhausted(cause: string)

  /** bcrypt.GenerateFromPassword(password, DefaultCost). A password over 72
      bytes is refused before any salt is drawn; otherwise hashing fails only
      when the random source does. Go then returns a nil hash. */
  function GenerateFromPassword(password: string, entropy: Entropy): (r: Result<string>)
    ensures r.Ok? <==> |password| <= MaxPasswordLength && entropy.Salt?
    ensures r.Ok? ==> CompareHashAndPassword(r.value, password)
    ensures r.Ok? ==> forall other :: CompareHashAndPassword(r.value, other) ==> other == password
    ensures |password| > MaxPasswordLength ==> r == Err("", Failure(PasswordTooLong))
    ensures |password| <= MaxPasswordLength && entropy.Exhausted? ==> r == Err("", Failure(entropy.cause))
  {
    if |password| > MaxPasswordLength then Err("", Failure(PasswordTooLong))
    else
      match entropy
      case Salt(s) =>
        var h := Prefix + [s] + password;
        assert h[|Prefix| + 1..] == password;
        Ok(h)
      case Exhausted(cause) => Err("", Failure(cause))
  }

  /** bcrypt.CompareHashAndPassword(hash, password) == nil: the hash is the
      one GenerateFromPassword makes from this password under the salt the
      hash carries. A malformed hash never matches. */
  predicate CompareHashAndPassword(hash: string, password: string)
    ensures CompareHashAndPassword(hash, password) <==>
              |hash| > |Prefix| && hash == Prefix + [hash[|Prefix|]] + password
  {
    |hash| > |Prefix| && hash[..|Prefix|] == Prefix && hash[|Prefix| + 1..] == password
  }
}
