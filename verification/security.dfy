/** The authenticated identity of a caller, as Spring Security's
    Authentication exposes it: a name and a collection of granted authorities. */
module Security {

  datatype Authentication = Authentication(name: string, authorities: seq<string>)

  const ROLE_ADMIN := "ROLE_ADMIN"
  const ROLE_PUBLISHER := "ROLE_PUBLISHER"
  const ROLE_AUTHOR := "ROLE_AUTHOR"

  /** The check behind @Secured(role): the caller holds that authority. */
  predicate HasRole(auth: Authentication, role: string)
    ensures HasRole(auth, role) <==> exists i :: 0 <= i < |auth.authorities| && auth.authorities[i] == role
  {
    role in auth.authorities
  }
}
