/** The redirect status `moveHandler.ServeHTTP` in plugin.go writes, given
    the configured status code (0 when unset) and the request method. */
module MoveHandler {

  const MethodGet := "GET"

  const StatusMovedPermanently := 301
  const StatusFound := 302
  const StatusTemporaryRedirect := 307
  const StatusPermanentRedirect := 308

  /** The final status. An unset code defaults to 302 for GET and 307 for
      every other method; a 301 on a non-GET request becomes 308, so that
      the client keeps the method and body; every other code passes
      through. Methods compare as exact strings, as Go's `!=` does. */
  function ResolveStatus(configured: int, httpMethod: string): (status: int)
    ensures configured == 0 && httpMethod == MethodGet ==> status == StatusFound
    ensures configured == 0 && httpMethod != MethodGet ==> status == StatusTemporaryRedirect
    ensures configured == StatusMovedPermanently ==>
              status == (if httpMethod == MethodGet then StatusMovedPermanently else StatusPermanentRedirect)
    ensures configured != 0 && configured != StatusMovedPermanently ==> status == configured
  {
    var status :=
      if configured == 0 then
        (if httpMethod != MethodGet then StatusTemporaryRedirect else StatusFound)
      else configured;
    if httpMethod != MethodGet && status == StatusMovedPermanently then StatusPermanentRedirect else status
  }

  /** A resolved status is never the "unset" code. */
  lemma ResolvedIsSet(configured: int, httpMethod: string)
    ensures ResolveStatus(configured, httpMethod) != 0
  {
  }

  /** A non-GET request is never sent a 301. */
  lemma NonGetNeverMovedPermanently(configured: int, httpMethod: string)
    requires httpMethod != MethodGet
    ensures ResolveStatus(configured, httpMethod) != StatusMovedPermanently
  {
  }

  /** The status chosen for an unset or 301 code on a non-GET request is
      one that obliges the client to repeat the httpMethod: 307 or 308. */
  lemma NonGetPreservesMethod(configured: int, httpMethod: string)
    requires httpMethod != MethodGet
    requires configured == 0 || configured == StatusMovedPermanently
    ensures ResolveStatus(configured, httpMethod) in {StatusTemporaryRedirect, StatusPermanentRedirect}
  {
  }

  /** For GET only the unset code is rewritten. */
  lemma GetKeepsExplicitStatus(configured: int)
    requires configured != 0
    ensures ResolveStatus(configured, MethodGet) == configured
  {
  }

  /** Resolving an already resolved status changes nothing. */
  lemma ResolveIdempotent(configured: int, httpMethod: string)
    ensures ResolveStatus(ResolveStatus(configured, httpMethod), httpMethod) == ResolveStatus(configured, httpMethod)
  {
  }
}
