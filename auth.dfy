/**
 * Login tokens (auth.go and the test client's TokenMD5). The digest, an
 * MD5 sum written as lowercase hex, is a parameter: only the order in which
 * the inputs are fed to it matters here.
 */
module Auth {

  /** The token a client presents: the digest of secret, user, client id
      and timestamp, concatenated in that order. */
  function TokenMD5(digest: string -> string, secret: string, user: string, m: string, timestamp: string): string
  {
    digest(secret + user + m + timestamp)
  }

  /** The node's check of a presented token: it accepts exactly the token
      the client computes for the same secret, user, client id and
      timestamp. */
  predicate CheckTokenMD5(digest: string -> string, secret: string, user: string, m: string, timestamp: string, pk: string)
    ensures CheckTokenMD5(digest, secret, user, m, timestamp, pk) <==> pk == TokenMD5(digest, secret, user, m, timestamp)
  {
    digest(secret + user + m + timestamp) == pk
  }

  /** A token made by the client is accepted by the node for the same
      secret, user, client id and timestamp, whatever the digest is. */
  lemma TokenAccepted(digest: string -> string, secret: string, user: string, m: string, timestamp: string)
    ensures CheckTokenMD5(digest, secret, user, m, timestamp, TokenMD5(digest, secret, user, m, timestamp))
  {
  }

  /** The fields are concatenated without a separator, so a token issued
      for one user and client id is accepted for any other split of the same
      text: for example, user "a" on client "bc" and user "ab" on client
      "c". */
  lemma TokenFieldsRun(digest: string -> string, secret: string, u: string, m: string,
                       u': string, m': string, timestamp: string)
    requires u + m == u' + m'
    ensures CheckTokenMD5(digest, secret, u', m', timestamp, TokenMD5(digest, secret, u, m, timestamp))
  {
    assert secret + u + m + timestamp == secret + (u + m) + timestamp;
    assert secret + u' + m' + timestamp == secret + (u' + m') + timestamp;
  }
}
