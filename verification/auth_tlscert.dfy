/** The "tls_cert" authentication: a placeholder reading the API-key field. */
module TlsCertAuthentication {
  import opened Base
  import opened Strings
  import opened Http
  import opened Contexts
  import TlsCertRestriction

  const Identifier: string := "tls_cert"

  function NullContext(): Context {
    TlsCertRestriction.NullContext()
  }

  function SerializeForm(req: Request, oldCtx: Option<Context>): (r: Result<Context>)
    ensures !IsBlank(FormValue(req, "auth_api_key_key")) ==> r == Ok(TlsCertCtx("", 42))
    ensures IsBlank(FormValue(req, "auth_api_key_key")) ==>
              r == (if oldCtx.Some? then Ok(oldCtx.value) else Err("No API key given."))
  {
    TlsCertRestriction.SerializePlaceholder(req, oldCtx)
  }

  /** A blank value accepts whatever old context it is handed, whatever its type. */
  lemma BlankKeepsAnyOldContext(req: Request, c: Context)
    requires AllSpace(FormValue(req, "auth_api_key_key"))
    ensures SerializeForm(req, Some(c)) == Ok(c)
    ensures SerializeForm(req, None) == Err("No API key given.")
  {
    TrimSpaceEmpty(FormValue(req, "auth_api_key_key"));
  }
}
