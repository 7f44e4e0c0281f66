/** The "api_key" authentication: the form side of key-based consumer authentication. */
module ApiKeyAuthentication {
  import opened Base
  import opened Strings
  import opened Http
  import opened Crypto
  import opened Contexts
  import ApiKeyRestriction

  const Identifier: string := "api_key"

  function NullContext(): Context {
    ApiKeyRestriction.NullContext()
  }

  /** `SerializeForm`: the `auth_api_key_key` field, hashed; blank keeps the old context. */
  function SerializeForm(b: Bcrypt, req: Request, oldCtx: Option<Context>): (r: Result<Context>)
    ensures !IsBlank(FormValue(req, "auth_api_key_key")) ==>
              r == Ok(ApiKeyCtx(HashBcrypt(b, TrimSpace(FormValue(req, "auth_api_key_key")))))
    ensures IsBlank(FormValue(req, "auth_api_key_key")) ==>
              r == (if oldCtx.Some? then Ok(oldCtx.value) else Err("No API key given."))
  {
    ApiKeyRestriction.SerializeKey(b, req, "auth_api_key_key", oldCtx)
  }

  /** The stored value is the hash, which a lawful bcrypt verifies against the trimmed key. */
  lemma StoresVerifiableHash(b: Bcrypt, req: Request, oldCtx: Option<Context>)
    requires BcryptLawful(b) && !IsBlank(FormValue(req, "auth_api_key_key"))
    ensures var r := SerializeForm(b, req, oldCtx);
            r.Ok? && r.value.ApiKeyCtx? && CompareBcrypt(b, r.value.hash, TrimSpace(FormValue(req, "auth_api_key_key")))
  {
    CompareHashed(b, TrimSpace(FormValue(req, "auth_api_key_key")));
  }
}
