/** The "origin_ip" restriction: a ruleset of permitted client addresses. */
module OriginIpRestriction {
  import opened Base
  import opened Strings
  import opened Http
  import opened Contexts

  const Identifier: string := "origin_ip"

  function NullContext(): Context {
    OriginIpCtx("")
  }

  predicate IsNullContext(ctx: Context) {
    ctx.OriginIpCtx? && ctx.ruleset == ""
  }

  /** `SerializeForm`: the trimmed ruleset, which may be empty only when disabled. */
  function SerializeForm(req: Request, enabled: bool, oldCtx: Option<Context>): (r: Result<Context>)
    ensures r.Ok? ==> r.value == OriginIpCtx(TrimSpace(FormValue(req, "restriction_origin_ip_ruleset")))
    ensures r.Err? ==> r.error == "No rules given."
  {
    var ruleset := TrimSpace(FormValue(req, "restriction_origin_ip_ruleset"));
    if enabled && |ruleset| == 0 then Err("No rules given.") else Ok(OriginIpCtx(ruleset))
  }

  /** The form is refused exactly when the restriction is enabled and the ruleset is blank. */
  lemma SerializeFormErrIff(req: Request, enabled: bool, oldCtx: Option<Context>)
    ensures SerializeForm(req, enabled, oldCtx).Err?
            <==> enabled && AllSpace(FormValue(req, "restriction_origin_ip_ruleset"))
  {
    TrimSpaceEmpty(FormValue(req, "restriction_origin_ip_ruleset"));
  }

  /** Surrounding white space never reaches the stored ruleset. */
  lemma SerializeFormTrims(req: Request, enabled: bool, oldCtx: Option<Context>)
    requires SerializeForm(req, enabled, oldCtx).Ok?
    ensures var rs := SerializeForm(req, enabled, oldCtx).value.ruleset;
            rs == "" || (!IsSpace(rs[0]) && !IsSpace(rs[|rs| - 1]))
  {
  }
}
