/**
 * The "api_key" restriction: the client must present a key whose bcrypt hash
 * is configured. The same context type serves the "api_key" authentication.
 */
module ApiKeyRestriction {
  import opened Base
  import opened Strings
  import opened Http
  import opened Crypto
  import opened Contexts

  const Identifier: string := "api_key"

  /** The null context holds the empty hash, so the empty key is never hashed. */
  function NullContext(): Context {
    ApiKeyCtx("")
  }

  predicate IsNullContext(ctx: Context) {
    ctx.ApiKeyCtx? && ctx.hash == ""
  }

  /** `newApiKeyContext`: only the hash of the key is kept. */
  function NewApiKeyContext(b: Bcrypt, key: string): Context {
    ApiKeyCtx(HashBcrypt(b, key))
  }

  /** The shared form rule: a blank key keeps the old context, or is an error when there is none. */
  function SerializeKey(b: Bcrypt, req: Request, field: string, oldCtx: Option<Context>): (r: Result<Context>)
    ensures IsBlank(FormValue(req, field)) && oldCtx.Some? ==> r == Ok(oldCtx.value)
    ensures IsBlank(FormValue(req, field)) && oldCtx.None? ==> r == Err("No API key given.")
  {
    var value := TrimSpace(FormValue(req, field));
    if |value| == 0 then
      match oldCtx
      case None => Err("No API key given.")
      case Some(c) => Ok(c)
    else Ok(NewApiKeyContext(b, value))
  }

  function SerializeForm(b: Bcrypt, req: Request, enabled: bool, oldCtx: Option<Context>): (r: Result<Context>)
    ensures !IsBlank(FormValue(req, "restriction_api_key_key")) ==>
              r == Ok(ApiKeyCtx(HashBcrypt(b, TrimSpace(FormValue(req, "restriction_api_key_key")))))
  {
    SerializeKey(b, req, "restriction_api_key_key", oldCtx)
  }

  /** The key a client presents: the `raziel_key` form field, else the `X-Raziel-Key` header. */
  function ProvidedKey(req: Request): (k: string)
    ensures FormValue(req, "raziel_key") != "" ==> k == FormValue(req, "raziel_key")
    ensures FormValue(req, "raziel_key") == "" ==> k == HeaderGet(req, "X-Raziel-Key")
  {
    var fromForm := FormValue(req, "raziel_key");
    if |fromForm| > 0 then fromForm else HeaderGet(req, "X-Raziel-Key")
  }

  function CheckAccess(b: Bcrypt, req: Request, ctx: Context): (v: Verdict)
    ensures v.granted ==> v.diagnostic.None?
  {
    if !ctx.ApiKeyCtx? then Deny(InvalidContext)
    else
      var key := ProvidedKey(req);
      if |key| == 0 then Deny("No API key provided.")
      else if !CompareBcrypt(b, ctx.hash, key) then Deny("The provided API is invalid.")
      else Allow
  }

  // ---------------------------------------------------------------------------
  // Properties

  /** Access is granted exactly when a key is presented and verifies against the stored hash. */
  lemma CheckAccessIffKeyVerifies(b: Bcrypt, req: Request, ctx: Context)
    ensures CheckAccess(b, req, ctx).granted <==>
              ctx.ApiKeyCtx? && ProvidedKey(req) != "" && b.verify(ctx.hash, ProvidedKey(req))
    ensures ctx.ApiKeyCtx? && ProvidedKey(req) == "" ==> CheckAccess(b, req, ctx) == Deny("No API key provided.")
  {
  }

  /** The form field wins over the header: a wrong form key is refused even when the header holds the right one. */
  lemma FormKeyTakesPrecedence(b: Bcrypt, req: Request, ctx: Context)
    requires ctx.ApiKeyCtx? && FormValue(req, "raziel_key") != ""
    requires !b.verify(ctx.hash, FormValue(req, "raziel_key"))
    ensures CheckAccess(b, req, ctx) == Deny("The provided API is invalid.")
  {
  }

  /** A key entered in the form opens the restriction it configures, under a lawful bcrypt. */
  lemma ConfiguredKeyOpens(b: Bcrypt, form: Request, client: Request, enabled: bool, oldCtx: Option<Context>)
    requires BcryptLawful(b)
    requires !IsBlank(FormValue(form, "restriction_api_key_key"))
    requires ProvidedKey(client) == TrimSpace(FormValue(form, "restriction_api_key_key"))
    ensures CheckAccess(b, client, SerializeForm(b, form, enabled, oldCtx).value).granted
  {
    CompareHashed(b, ProvidedKey(client));
  }

  /** A blank submission leaves a configured key untouched; with nothing to keep it is refused. */
  lemma BlankKeepsOld(b: Bcrypt, req: Request, enabled: bool, oldCtx: Option<Context>)
    requires IsBlank(FormValue(req, "restriction_api_key_key"))
    ensures oldCtx.Some? ==> SerializeForm(b, req, enabled, oldCtx) == Ok(oldCtx.value)
    ensures oldCtx.None? ==> SerializeForm(b, req, enabled, oldCtx) == Err("No API key given.")
  {
  }
}
