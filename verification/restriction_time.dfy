/** The "time" restriction: a ruleset of permitted times of day. */
module TimeRestriction {
  import opened Base
  import opened Strings
  import opened Http
  import opened Contexts

  const Identifier: string := "time"

  function NullContext(): Context {
    TimeCtx("")
  }

  predicate IsNullContext(ctx: Context) {
    ctx.TimeCtx? && ctx.ruleset == ""
  }

  /** `SerializeForm`: the trimmed ruleset, which may be empty only when disabled. */
  function SerializeForm(req: Request, enabled: bool, oldCtx: Option<Context>): (r: Result<Context>)
    ensures r.Ok? ==> r.value == TimeCtx(TrimSpace(FormValue(req, "restriction_time_ruleset")))
    ensures r.Err? ==> r.error == "No rules given."
  {
    var ruleset := TrimSpace(FormValue(req, "restriction_time_ruleset"));
    if enabled && |ruleset| == 0 then Err("No rules given.") else Ok(TimeCtx(ruleset))
  }

  /** The form is refused exactly when the restriction is enabled and the ruleset is blank. */
  lemma SerializeFormErrIff(req: Request, enabled: bool, oldCtx: Option<Context>)
    ensures SerializeForm(req, enabled, oldCtx).Err?
            <==> enabled && AllSpace(FormValue(req, "restriction_time_ruleset"))
  {
    TrimSpaceEmpty(FormValue(req, "restriction_time_ruleset"));
  }

  /** A disabled time restriction with a blank ruleset is stored as the null context. */
  lemma DisabledBlankIsNull(req: Request, oldCtx: Option<Context>)
    requires AllSpace(FormValue(req, "restriction_time_ruleset"))
    ensures SerializeForm(req, false, oldCtx) == Ok(NullContext())
  {
    TrimSpaceEmpty(FormValue(req, "restriction_time_ruleset"));
  }
}
