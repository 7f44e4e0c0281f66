/** The "hit_limit" restriction: a budget of requests that counts down. */
module HitLimitRestriction {
  import opened Base
  import opened Strings
  import opened Http
  import opened Contexts

  const Identifier: string := "hit_limit"

  function NullContext(): Context {
    HitLimitCtx(0, 0)
  }

  predicate IsNullContext(ctx: Context) {
    ctx.HitLimitCtx? && ctx.limit <= 0
  }

  /**
   * `SerializeForm`: the trimmed limit must parse (the parse error is passed
   * through) and be positive when the restriction is enabled. The remaining
   * count is carried over from a non-null old context, otherwise it starts
   * at the limit.
   */
  function SerializeForm(req: Request, enabled: bool, oldCtx: Option<Context>): (r: Result<Context>)
    ensures r.Ok? ==> r.value.HitLimitCtx? && InInt64(r.value.limit)
    ensures r.Ok? && enabled ==> r.value.limit > 0
    ensures var a := Atoi(TrimSpace(FormValue(req, "restriction_hit_limit_limit")));
            && (r.Ok? <==> a.Ok? && !(enabled && a.value <= 0))
            && (a.Ok? && enabled && a.value <= 0 ==> r == Err("The request limit must be greater than zero."))
            && (r.Ok? ==> r.value.limit == a.value)
    ensures r.Ok? && oldCtx.Some? && oldCtx.value.HitLimitCtx? && oldCtx.value.limit > 0 ==>
              r.value.remaining == oldCtx.value.remaining
    ensures r.Ok? && (oldCtx.None? || !oldCtx.value.HitLimitCtx? || oldCtx.value.limit <= 0) ==>
              r.value.remaining == r.value.limit
  {
    var field := TrimSpace(FormValue(req, "restriction_hit_limit_limit"));
    match Atoi(field)
    case Err(e) => Err(e)
    case Ok(limit) =>
      if enabled && limit <= 0 then Err("The request limit must be greater than zero.")
      else
        var remaining :=
          if oldCtx.Some? && oldCtx.value.HitLimitCtx? && !IsNullContext(oldCtx.value)
          then oldCtx.value.remaining else limit;
        Ok(HitLimitCtx(limit, remaining))
  }

  // ---------------------------------------------------------------------------
  // Properties

  /**
   * A limit that does not parse is reported with `strconv.Atoi`'s own error
   * for the trimmed field: a range error when its digits leave the uint64
   * range before any other character, a syntax error otherwise.
   */
  lemma SerializeFormPassesParseError(req: Request, enabled: bool, oldCtx: Option<Context>)
    requires Atoi(TrimSpace(FormValue(req, "restriction_hit_limit_limit"))).Err?
    ensures var field := TrimSpace(FormValue(req, "restriction_hit_limit_limit"));
            && SerializeForm(req, enabled, oldCtx) == Err(Atoi(field).error)
            && (SerializeForm(req, enabled, oldCtx) == Err(AtoiError(field, "invalid syntax"))
                || SerializeForm(req, enabled, oldCtx) == Err(AtoiError(field, "value out of range")))
  {
    AtoiErrors(TrimSpace(FormValue(req, "restriction_hit_limit_limit")));
  }

  /** A limit of twenty nines followed by a letter is refused with the range error, as Go scans it. */
  lemma SerializeFormReportsOverflowFirst(req: Request, enabled: bool, oldCtx: Option<Context>)
    requires FormValue(req, "restriction_hit_limit_limit") == "99999999999999999999x"
    ensures SerializeForm(req, enabled, oldCtx)
            == Err(AtoiError("99999999999999999999x", "value out of range"))
  {
    assert TrimSpace("99999999999999999999x") == "99999999999999999999x" by {
      TrimSpaceNoOp("99999999999999999999x");
    }
    AtoiOverflowBeforeBadDigit();
  }

  /**
   * For a limit n that the trimmed field parses to, however it is spelled:
   * enabled with n <= 0 is refused; otherwise the new limit is n and the
   * remaining count is the old one when the old context was a non-null
   * hit-limit context (even above n), else n.
   */
  lemma SerializeFormLimit(req: Request, enabled: bool, oldCtx: Option<Context>, n: int)
    requires Atoi(TrimSpace(FormValue(req, "restriction_hit_limit_limit"))) == Ok(n)
    ensures enabled && n <= 0 ==>
              SerializeForm(req, enabled, oldCtx) == Err("The request limit must be greater than zero.")
    ensures !(enabled && n <= 0) && oldCtx.Some? && oldCtx.value.HitLimitCtx? && oldCtx.value.limit > 0 ==>
              SerializeForm(req, enabled, oldCtx) == Ok(HitLimitCtx(n, oldCtx.value.remaining))
    ensures !(enabled && n <= 0) && (oldCtx.None? || IsNullContext(oldCtx.value) || !oldCtx.value.HitLimitCtx?) ==>
              SerializeForm(req, enabled, oldCtx) == Ok(HitLimitCtx(n, n))
  {
  }

  /** A limit is read as `strconv.Atoi` reads the trimmed field: " +007 " is a limit of seven. */
  lemma SerializeFormReadsAnySpelling(req: Request, enabled: bool)
    requires FormValue(req, "restriction_hit_limit_limit") == " +007\t"
    ensures SerializeForm(req, enabled, None) == Ok(HitLimitCtx(7, 7))
  {
    TrimSpacePadded(" ", "+007", "\t");
    assert " " + "+007" + "\t" == " +007\t";
    AtoiLeadingZeros();
  }

  /** The decimal `Itoa` writes for any int64 limit is read back. */
  lemma SerializeFormReadsItoa(req: Request, enabled: bool, oldCtx: Option<Context>, n: int)
    requires InInt64(n) && FormValue(req, "restriction_hit_limit_limit") == Itoa(n)
    ensures Atoi(TrimSpace(FormValue(req, "restriction_hit_limit_limit"))) == Ok(n)
    ensures !(enabled && n <= 0) ==> SerializeForm(req, enabled, oldCtx).Ok?
                                     && SerializeForm(req, enabled, oldCtx).value.limit == n
  {
    TrimSpaceOfItoa(n);
    AtoiItoa(n);
  }

  lemma NullContextIsNull()
    ensures IsNullContext(NullContext()) && NullContext().remaining == 0
  {
  }
}
