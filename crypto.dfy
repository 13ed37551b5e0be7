/**
 * Symbolic stand-ins for the two cryptographic libraries the server calls:
 * bcrypt for password hashes and JSON Web Tokens for session tokens.
 * Neither algorithm is modelled; only the one property the server relies on
 * is kept: a stored hash verifies exactly the password it was made from.
 */
module Crypto {

  /** Cost factor passed to `bcrypt.hashSync` (server/index.js:32). */
  const SaltRounds: nat := 8

  /** Secret the server signs tokens with (server/index.js:20). */
  const Secret: string := "supersecretkey"

  /** Token lifetime passed to `jwt.sign`, `'1h'`, in seconds (server/index.js:44). */
  const ExpiresInSeconds: nat := 3600

  /** An opaque password hash: a symbolic term, not a digest. */
  datatype PasswordHash = Bcrypt(rounds: nat, password: string)

  /** An opaque signed token carrying the `{ username }` payload. */
  datatype Token = Jwt(username: string, secret: string, expiresIn: nat)

  /** `bcrypt.hashSync(password, 8)`. */
  function Hash(password: string): (h: PasswordHash)
    ensures h.rounds == SaltRounds
  {
    Bcrypt(SaltRounds, password)
  }

  /** `bcrypt.compareSync(password, h)`: holds exactly for the hash of `password`. */
  predicate Verify(password: string, h: PasswordHash)
    ensures Verify(password, h) ==> h.password == password && h.rounds == SaltRounds
  {
    h == Hash(password)
  }

  /** `jwt.sign({ username }, SECRET, { expiresIn: '1h' })`. */
  function Sign(username: string): (t: Token)
    ensures t.username == username && t.secret == Secret && t.expiresIn == ExpiresInSeconds
  {
    Jwt(username, Secret, ExpiresInSeconds)
  }

  /** A hash verifies the password it was made from and no other. */
  lemma VerifyExactlyOwnPassword(password: string, guess: string)
    ensures Verify(guess, Hash(password)) <==> guess == password
  {
  }
}
