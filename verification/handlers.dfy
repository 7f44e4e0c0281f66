/**
 * The `RestrictionHandler` and `AuthenticationHandler` interfaces: one
 * constructor per implementation, and dispatch of each interface method to
 * the module that implements it.
 */
module Handlers {
  import opened Base
  import opened Http
  import opened Crypto
  import opened Contexts
  import DateRestriction
  import ThrottleRestriction
  import HitLimitRestriction
  import FileRestriction
  import OriginIpRestriction
  import TimeRestriction
  import ApiKeyRestriction
  import TlsCertRestriction
  import ApiKeyAuthentication
  import TlsCertAuthentication

  datatype RestrictionKind = OriginIp | Date | Time | File | HitLimit | Throttle | ApiKey | TlsCert

  datatype AuthKind = ApiKeyAuth | TlsCertAuth

  function RestrictionIdentifier(k: RestrictionKind): string {
    match k
    case OriginIp => OriginIpRestriction.Identifier
    case Date => DateRestriction.Identifier
    case Time => TimeRestriction.Identifier
    case File => FileRestriction.Identifier
    case HitLimit => HitLimitRestriction.Identifier
    case Throttle => ThrottleRestriction.Identifier
    case ApiKey => ApiKeyRestriction.Identifier
    case TlsCert => TlsCertRestriction.Identifier
  }

  function RestrictionNullContext(k: RestrictionKind): Context {
    match k
    case OriginIp => OriginIpRestriction.NullContext()
    case Date => DateRestriction.NullContext()
    case Time => TimeRestriction.NullContext()
    case File => FileRestriction.NullContext()
    case HitLimit => HitLimitRestriction.NullContext()
    case Throttle => ThrottleRestriction.NullContext()
    case ApiKey => ApiKeyRestriction.NullContext()
    case TlsCert => TlsCertRestriction.NullContext()
  }

  predicate RestrictionIsNullContext(k: RestrictionKind, ctx: Context) {
    match k
    case OriginIp => OriginIpRestriction.IsNullContext(ctx)
    case Date => DateRestriction.IsNullContext(ctx)
    case Time => TimeRestriction.IsNullContext(ctx)
    case File => FileRestriction.IsNullContext(ctx)
    case HitLimit => HitLimitRestriction.IsNullContext(ctx)
    case Throttle => ThrottleRestriction.IsNullContext(ctx)
    case ApiKey => ApiKeyRestriction.IsNullContext(ctx)
    case TlsCert => TlsCertRestriction.IsNullContext(ctx)
  }

  function RestrictionSerializeForm(k: RestrictionKind, b: Bcrypt, req: Request, enabled: bool,
                                    oldCtx: Option<Context>): Result<Context> {
    match k
    case OriginIp => OriginIpRestriction.SerializeForm(req, enabled, oldCtx)
    case Date => DateRestriction.SerializeForm(req, enabled, oldCtx)
    case Time => TimeRestriction.SerializeForm(req, enabled, oldCtx)
    case File => FileRestriction.SerializeForm(req, enabled, oldCtx)
    case HitLimit => HitLimitRestriction.SerializeForm(req, enabled, oldCtx)
    case Throttle => ThrottleRestriction.SerializeForm(req, enabled, oldCtx)
    case ApiKey => ApiKeyRestriction.SerializeForm(b, req, enabled, oldCtx)
    case TlsCert => TlsCertRestriction.SerializeForm(req, enabled, oldCtx)
  }

  /**
   * Only the date, file, api_key and tls_cert handlers define `CheckAccess`
   * (restriction_date.go, restriction_file.go, restriction_apikey.go and
   * restriction_tlscert.go); the other four Go types have no such method.
   */
  function RestrictionCheckAccess(k: RestrictionKind, env: Env, ctx: Context): CheckOutcome {
    match k
    case Date => Checked(DateRestriction.CheckAccess(env.weekday, ctx))
    case File => Checked(FileRestriction.CheckAccess(env.fs, ctx))
    case ApiKey => Checked(ApiKeyRestriction.CheckAccess(env.bcrypt, env.req, ctx))
    case TlsCert => Checked(TlsCertRestriction.CheckAccess(env.req, ctx))
    case OriginIp => NoCheckDefined
    case Time => NoCheckDefined
    case HitLimit => NoCheckDefined
    case Throttle => NoCheckDefined
  }

  function AuthIdentifier(k: AuthKind): string {
    match k
    case ApiKeyAuth => ApiKeyAuthentication.Identifier
    case TlsCertAuth => TlsCertAuthentication.Identifier
  }

  function AuthNullContext(k: AuthKind): Context {
    match k
    case ApiKeyAuth => ApiKeyAuthentication.NullContext()
    case TlsCertAuth => TlsCertAuthentication.NullContext()
  }

  function AuthSerializeForm(k: AuthKind, b: Bcrypt, req: Request, oldCtx: Option<Context>): Result<Context> {
    match k
    case ApiKeyAuth => ApiKeyAuthentication.SerializeForm(b, req, oldCtx)
    case TlsCertAuth => TlsCertAuthentication.SerializeForm(req, oldCtx)
  }

  /** Neither auth_apikey.go nor auth_tlscert.go defines a `CheckAccess` method for its handler. */
  function AuthCheckAccess(k: AuthKind, env: Env, ctx: Context): CheckOutcome {
    NoCheckDefined
  }

  // ---------------------------------------------------------------------------
  // Properties

  /** Different handlers answer to different identifiers, so a registry keyed by identifier loses none. */
  lemma RestrictionIdentifierInjective(k: RestrictionKind, k': RestrictionKind)
    ensures RestrictionIdentifier(k) == RestrictionIdentifier(k') <==> k == k'
  {
  }

  lemma AuthIdentifierInjective(k: AuthKind, k': AuthKind)
    ensures AuthIdentifier(k) == AuthIdentifier(k') <==> k == k'
  {
  }

  /** Every handler recognises its own null context, and no context of another handler's type. */
  lemma NullContextIsNull(k: RestrictionKind, k': RestrictionKind)
    ensures RestrictionIsNullContext(k, RestrictionNullContext(k))
    ensures k != k' ==>
              !RestrictionIsNullContext(k, RestrictionNullContext(k'))
  {
    OwnNullContextIsNull(k);
    if k != k' {
      ForeignNullContextIsNot(k, k');
    }
  }

  lemma OwnNullContextIsNull(k: RestrictionKind)
    ensures RestrictionIsNullContext(k, RestrictionNullContext(k))
  {
    DateRestriction.NullContextIsNull();
  }

  lemma ForeignNullContextIsNot(k: RestrictionKind, k': RestrictionKind)
    requires k != k'
    ensures !RestrictionIsNullContext(k, RestrictionNullContext(k'))
  {
  }

  /** A handler that defines `CheckAccess` grants only with no diagnostic. */
  lemma GrantHasNoDiagnostic(k: RestrictionKind, env: Env, ctx: Context)
    ensures RestrictionCheckAccess(k, env, ctx).Checked? && RestrictionCheckAccess(k, env, ctx).verdict.granted
            ==> RestrictionCheckAccess(k, env, ctx).verdict.diagnostic.None?
    ensures RestrictionCheckAccess(k, env, ctx).NoCheckDefined? <==> k in {OriginIp, Time, HitLimit, Throttle}
  {
  }
}
