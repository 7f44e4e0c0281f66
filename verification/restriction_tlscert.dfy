/**
 * The "tls_cert" restriction: a client-certificate rule whose form handling
 * is a placeholder and whose check always denies. Its context type also
 * serves the "tls_cert" authentication.
 */
module TlsCertRestriction {
  import opened Base
  import opened Strings
  import opened Http
  import opened Contexts

  const Identifier: string := "tls_cert"

  /** The placeholder serial a non-blank form value produces. */
  const PlaceholderSerial: int := 42

  function NullContext(): Context {
    TlsCertCtx("", 0)
  }

  predicate IsNullContext(ctx: Context) {
    ctx.TlsCertCtx? && ctx.issuer == "" && ctx.serial == 0
  }

  /** The shared form rule, reading `auth_api_key_key`: blank keeps the old context. */
  function SerializePlaceholder(req: Request, oldCtx: Option<Context>): (r: Result<Context>)
    ensures IsBlank(FormValue(req, "auth_api_key_key")) && oldCtx.Some? ==> r == Ok(oldCtx.value)
    ensures IsBlank(FormValue(req, "auth_api_key_key")) && oldCtx.None? ==> r == Err("No API key given.")
  {
    var value := TrimSpace(FormValue(req, "auth_api_key_key"));
    if |value| == 0 then
      match oldCtx
      case None => Err("No API key given.")
      case Some(c) => Ok(c)
    else Ok(TlsCertCtx("", PlaceholderSerial))
  }

  function SerializeForm(req: Request, enabled: bool, oldCtx: Option<Context>): (r: Result<Context>) {
    SerializePlaceholder(req, oldCtx)
  }

  /** The stub check: never grants and never explains. */
  function CheckAccess(req: Request, ctx: Context): (v: Verdict)
    ensures !v.granted && v.diagnostic.None?
  {
    Verdict(false, None)
  }

  // ---------------------------------------------------------------------------
  // Properties

  /** Whatever non-blank value is submitted, the context is the placeholder ("", 42), which is not null. */
  lemma NonBlankGivesPlaceholder(req: Request, req': Request, enabled: bool, oldCtx: Option<Context>, oldCtx': Option<Context>)
    requires !IsBlank(FormValue(req, "auth_api_key_key")) && !IsBlank(FormValue(req', "auth_api_key_key"))
    ensures SerializeForm(req, enabled, oldCtx) == SerializeForm(req', !enabled, oldCtx')
    ensures SerializeForm(req, enabled, oldCtx) == Ok(TlsCertCtx("", PlaceholderSerial))
    ensures !IsNullContext(SerializeForm(req, enabled, oldCtx).value)
  {
  }

  lemma NullContextIsNull(ctx: Context)
    ensures IsNullContext(NullContext())
    ensures IsNullContext(ctx) <==> ctx == NullContext()
  {
  }
}
