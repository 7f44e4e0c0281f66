/**
 * Start-up wiring: the two handler registries, keyed by each handler's
 * identifier, and the wrapper that runs every request in one transaction.
 */
module Registry {
  import opened Base
  import opened Handlers

  type RestrictionRegistry = map<string, RestrictionKind>
  type AuthRegistry = map<string, AuthKind>

  /** Every entry sits under its own handler's identifier. */
  predicate RestrictionRegistryWellFormed(reg: RestrictionRegistry) {
    forall t :: t in reg ==> RestrictionIdentifier(reg[t]) == t
  }

  predicate AuthRegistryWellFormed(reg: AuthRegistry) {
    forall t :: t in reg ==> AuthIdentifier(reg[t]) == t
  }

  /** `addRestrictionHandler`: registers (or replaces) the handler under its identifier. */
  function AddRestrictionHandler(reg: RestrictionRegistry, k: RestrictionKind): (r: RestrictionRegistry)
    ensures RestrictionIdentifier(k) in r && r[RestrictionIdentifier(k)] == k
    ensures r.Keys == reg.Keys + {RestrictionIdentifier(k)}
    ensures forall t :: t in reg && t != RestrictionIdentifier(k) ==> r[t] == reg[t]
    ensures RestrictionRegistryWellFormed(reg) ==> RestrictionRegistryWellFormed(r)
  {
    reg[RestrictionIdentifier(k) := k]
  }

  /** `addAuthenticationHandler`: registers (or replaces) the handler under its identifier. */
  function AddAuthenticationHandler(reg: AuthRegistry, k: AuthKind): (r: AuthRegistry)
    ensures AuthIdentifier(k) in r && r[AuthIdentifier(k)] == k
    ensures r.Keys == reg.Keys + {AuthIdentifier(k)}
    ensures forall t :: t in reg && t != AuthIdentifier(k) ==> r[t] == reg[t]
    ensures AuthRegistryWellFormed(reg) ==> AuthRegistryWellFormed(r)
  {
    reg[AuthIdentifier(k) := k]
  }

  /** Registers a list of handlers in order. */
  function AddRestrictionHandlers(reg: RestrictionRegistry, ks: seq<RestrictionKind>): RestrictionRegistry
    decreases |ks|
  {
    if |ks| == 0 then reg else AddRestrictionHandlers(AddRestrictionHandler(reg, ks[0]), ks[1..])
  }

  function AddAuthenticationHandlers(reg: AuthRegistry, ks: seq<AuthKind>): AuthRegistry
    decreases |ks|
  {
    if |ks| == 0 then reg else AddAuthenticationHandlers(AddAuthenticationHandler(reg, ks[0]), ks[1..])
  }

  /** The handlers `main` registers, in its order. */
  const RegisteredRestrictions: seq<RestrictionKind> := [OriginIp, Date, Time, File, HitLimit, Throttle]
  const RegisteredAuthentications: seq<AuthKind> := [ApiKeyAuth, TlsCertAuth]

  function DefaultRestrictionRegistry(): RestrictionRegistry {
    AddRestrictionHandlers(map[], RegisteredRestrictions)
  }

  function DefaultAuthRegistry(): AuthRegistry {
    AddAuthenticationHandlers(map[], RegisteredAuthentications)
  }

  // ---------------------------------------------------------------------------
  // Properties

  /** Registering a list keeps the registry well formed and adds exactly the listed identifiers. */
  lemma {:induction false} AddRestrictionHandlersSpec(reg: RestrictionRegistry, ks: seq<RestrictionKind>)
    requires RestrictionRegistryWellFormed(reg)
    ensures RestrictionRegistryWellFormed(AddRestrictionHandlers(reg, ks))
    ensures AddRestrictionHandlers(reg, ks).Keys
            == reg.Keys + set i | 0 <= i < |ks| :: RestrictionIdentifier(ks[i])
    decreases |ks|
  {
    if |ks| > 0 {
      var next := AddRestrictionHandler(reg, ks[0]);
      AddRestrictionHandlersSpec(next, ks[1..]);
      var tail := set i | 0 <= i < |ks[1..]| :: RestrictionIdentifier(ks[1..][i]);
      var all := set i | 0 <= i < |ks| :: RestrictionIdentifier(ks[i]);
      assert all == {RestrictionIdentifier(ks[0])} + tail by {
        forall t | t in all ensures t in {RestrictionIdentifier(ks[0])} + tail {
          var i :| 0 <= i < |ks| && t == RestrictionIdentifier(ks[i]);
          if i > 0 { assert ks[1..][i - 1] == ks[i]; }
        }
        forall t | t in tail ensures t in all {
          var i :| 0 <= i < |ks[1..]| && t == RestrictionIdentifier(ks[1..][i]);
          assert ks[1..][i] == ks[i + 1];
        }
      }
    }
  }

  lemma {:induction false} AddAuthenticationHandlersSpec(reg: AuthRegistry, ks: seq<AuthKind>)
    requires AuthRegistryWellFormed(reg)
    ensures AuthRegistryWellFormed(AddAuthenticationHandlers(reg, ks))
    ensures AddAuthenticationHandlers(reg, ks).Keys
            == reg.Keys + set i | 0 <= i < |ks| :: AuthIdentifier(ks[i])
    decreases |ks|
  {
    if |ks| > 0 {
      var next := AddAuthenticationHandler(reg, ks[0]);
      AddAuthenticationHandlersSpec(next, ks[1..]);
      var tail := set i | 0 <= i < |ks[1..]| :: AuthIdentifier(ks[1..][i]);
      var all := set i | 0 <= i < |ks| :: AuthIdentifier(ks[i]);
      assert all == {AuthIdentifier(ks[0])} + tail by {
        forall t | t in all ensures t in {AuthIdentifier(ks[0])} + tail {
          var i :| 0 <= i < |ks| && t == AuthIdentifier(ks[i]);
          if i > 0 { assert ks[1..][i - 1] == ks[i]; }
        }
        forall t | t in tail ensures t in all {
          var i :| 0 <= i < |ks[1..]| && t == AuthIdentifier(ks[1..][i]);
          assert ks[1..][i] == ks[i + 1];
        }
      }
    }
  }

  /** `main` registers exactly origin_ip, date, time, file, hit_limit and throttle, each under its identifier. */
  lemma DefaultRestrictionRegistrySpec()
    ensures RestrictionRegistryWellFormed(DefaultRestrictionRegistry())
    ensures DefaultRestrictionRegistry().Keys == {"origin_ip", "date", "time", "file", "hit_limit", "throttle"}
  {
    AddRestrictionHandlersSpec(map[], RegisteredRestrictions);
    RegisteredRestrictionIds();
  }

  /** The identifiers of the registered restriction handlers. */
  lemma RegisteredRestrictionIds()
    ensures (set i | 0 <= i < |RegisteredRestrictions| :: RestrictionIdentifier(RegisteredRestrictions[i]))
            == {"origin_ip", "date", "time", "file", "hit_limit", "throttle"}
  {
    assert RestrictionIdentifier(RegisteredRestrictions[0]) == "origin_ip";
    assert RestrictionIdentifier(RegisteredRestrictions[1]) == "date";
    assert RestrictionIdentifier(RegisteredRestrictions[2]) == "time";
    assert RestrictionIdentifier(RegisteredRestrictions[3]) == "file";
    assert RestrictionIdentifier(RegisteredRestrictions[4]) == "hit_limit";
    assert RestrictionIdentifier(RegisteredRestrictions[5]) == "throttle";
  }

  /** The authentication registry `main` builds, spelled out. */
  lemma DefaultAuthRegistryIs()
    ensures DefaultAuthRegistry() == map["api_key" := ApiKeyAuth, "tls_cert" := TlsCertAuth]
  {
    assert AuthIdentifier(ApiKeyAuth) == "api_key";
    assert AuthIdentifier(TlsCertAuth) == "tls_cert";
    assert RegisteredAuthentications[1..][1..] == [];
  }

  /** `main` registers exactly api_key and tls_cert, each under its identifier. */
  lemma DefaultAuthRegistrySpec()
    ensures AuthRegistryWellFormed(DefaultAuthRegistry())
    ensures DefaultAuthRegistry().Keys == {"api_key", "tls_cert"}
  {
    AddAuthenticationHandlersSpec(map[], RegisteredAuthentications);
    var ids := set i | 0 <= i < |RegisteredAuthentications| :: AuthIdentifier(RegisteredAuthentications[i]);
    assert ids == {"api_key", "tls_cert"} by {
      assert AuthIdentifier(RegisteredAuthentications[0]) == "api_key";
      assert AuthIdentifier(RegisteredAuthentications[1]) == "tls_cert";
    }
  }

  // ---------------------------------------------------------------------------
  // The per-request transaction

  /** The database after a request, and how the request ended. */
  datatype TxResult<S, T> = TxResult(state: S, outcome: Outcome<T>)

  /**
   * The transaction middleware: the handler chain runs against the open
   * transaction; a panic rolls it back and is re-raised; otherwise the
   * transaction commits, and a failed commit panics too.
   */
  function RunInTransaction<S, T>(db: S, chain: S -> Outcome<(S, T)>, commitError: Option<string>): (r: TxResult<S, T>)
    ensures r.outcome.Panicked? ==> r.state == db
    ensures chain(db).Panicked? ==> r.outcome == Panicked(chain(db).message)
    ensures r.outcome.Done? <==> chain(db).Done? && commitError.None?
    ensures r.outcome.Done? ==> r.state == chain(db).value.0 && r.outcome.value == chain(db).value.1
  {
    match chain(db)
    case Panicked(m) => TxResult(db, Panicked(m))
    case Done(res) =>
      match commitError
      case Some(e) => TxResult(db, Panicked(e))
      case None => TxResult(res.0, Done(res.1))
  }
}
