/** The admin gate: an exact comparison against the configured secret. */
module Auth {
  import Config

  datatype AuthResult = AuthResult(authenticated: bool, message: string)

  const MsgAuthenticated: string := "Authentication successful"
  const MsgInvalidPassword: string := "Invalid password"

  /** Succeeds exactly for the configured secret, with no trimming or case
      folding; the result depends on the argument alone. */
  function Authenticate(password: string): (r: AuthResult)
    ensures r.authenticated <==> password == Config.AdminPasswordSecret
    ensures r.message == (if r.authenticated then MsgAuthenticated else MsgInvalidPassword)
  {
    if password == Config.AdminPasswordSecret then AuthResult(true, MsgAuthenticated)
    else AuthResult(false, MsgInvalidPassword)
  }

  /** Near misses are refused: a trailing space, the empty string, a prefix. */
  lemma NearMissesRejected()
    ensures !Authenticate("1234 ").authenticated
    ensures !Authenticate(" 1234").authenticated
    ensures !Authenticate("").authenticated
    ensures !Authenticate("123").authenticated
    ensures Authenticate("1234").authenticated
  {
  }
}
