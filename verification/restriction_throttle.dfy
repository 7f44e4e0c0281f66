/** The "throttle" restriction: a maximum number of hits per time unit. */
module ThrottleRestriction {
  import opened Base
  import opened Strings
  import opened Http
  import opened Contexts

  const Identifier: string := "throttle"

  /** `ThrottleUnit`, numbered by `iota`. */
  const Second: int := 0
  const Minute: int := 1
  const Hour: int := 2
  const Day: int := 3

  function NullContext(): Context {
    ThrottleCtx(0, Hour)
  }

  predicate IsNullContext(ctx: Context) {
    ctx.ThrottleCtx? && ctx.maxHits <= 0 && ctx.unit == Hour
  }

  /**
   * `SerializeForm`: both fields are trimmed and parsed; the maximum must be
   * non-negative and the unit one of Second..Day. Old context and enabled
   * flag play no part.
   */
  function SerializeForm(req: Request, enabled: bool, oldCtx: Option<Context>): (r: Result<Context>)
    ensures var max := Atoi(TrimSpace(FormValue(req, "restriction_throttle_max")));
            var unit := Atoi(TrimSpace(FormValue(req, "restriction_throttle_unit")));
            && (r.Ok? <==> max.Ok? && max.value >= 0 && unit.Ok? && Second <= unit.value <= Day)
            && (r.Ok? ==> r.value == ThrottleCtx(max.value, unit.value))
            && (max.Err? || max.value < 0 ==> r == Err("Malformed number given for the request limit."))
            && (max.Ok? && max.value >= 0 && unit.Err? ==> r == Err("Malformed throttle unit given."))
            && (max.Ok? && max.value >= 0 && unit.Ok? && !(Second <= unit.value <= Day)
                ==> r == Err("Invalid throttle unit given."))
  {
    match Atoi(TrimSpace(FormValue(req, "restriction_throttle_max")))
    case Err(_) => Err("Malformed number given for the request limit.")
    case Ok(max) =>
      if max < 0 then Err("Malformed number given for the request limit.")
      else match Atoi(TrimSpace(FormValue(req, "restriction_throttle_unit")))
        case Err(_) => Err("Malformed throttle unit given.")
        case Ok(unit) =>
          if unit < Second || unit > Day then Err("Invalid throttle unit given.")
          else Ok(ThrottleCtx(max, unit))
  }

  /** One option of the unit drop-down. */
  datatype UnitOption = UnitOption(num: int, name: string, selected: bool)

  /** `throttleContext.Units`: the four units in order, the context's own one selected. */
  function Units(ctx: Context): (r: seq<UnitOption>)
    requires ctx.ThrottleCtx?
    ensures |r| == 4 && forall i :: 0 <= i < 4 ==> r[i].num == i
  {
    [ UnitOption(Second, "Second", ctx.unit == Second),
      UnitOption(Minute, "Minute", ctx.unit == Minute),
      UnitOption(Hour, "Hour", ctx.unit == Hour),
      UnitOption(Day, "Day", ctx.unit == Day) ]
  }

  // ---------------------------------------------------------------------------
  // Properties

  /** Exactly the context's unit is selected, and none when the unit is out of range. */
  lemma UnitsSelectsOwnUnit(ctx: Context, i: int)
    requires ctx.ThrottleCtx? && 0 <= i < 4
    ensures Units(ctx)[i].selected <==> ctx.unit == i
    ensures (exists j :: 0 <= j < 4 && Units(ctx)[j].selected) <==> Second <= ctx.unit <= Day
  {
    if Second <= ctx.unit <= Day {
      assert Units(ctx)[ctx.unit].selected;
    }
  }

  /** A form that spells out a valid (max, unit) pair is read back as exactly that context. */
  lemma SerializeFormAccepts(req: Request, enabled: bool, oldCtx: Option<Context>, max: int, unit: int)
    requires 0 <= max <= MaxInt64 && Second <= unit <= Day
    requires FormValue(req, "restriction_throttle_max") == Itoa(max)
    requires FormValue(req, "restriction_throttle_unit") == Itoa(unit)
    ensures SerializeForm(req, enabled, oldCtx) == Ok(ThrottleCtx(max, unit))
  {
    TrimSpaceOfItoa(max);
    TrimSpaceOfItoa(unit);
    AtoiItoa(max);
    AtoiItoa(unit);
  }

  /**
   * Any spelling `strconv.Atoi` accepts is read, such as a leading `+` or
   * leading zeros, and the unit is checked only after the maximum.
   */
  lemma SerializeFormReadsAnySpelling(req: Request, enabled: bool, oldCtx: Option<Context>)
    requires FormValue(req, "restriction_throttle_max") == "+007"
    requires FormValue(req, "restriction_throttle_unit") == "01"
    ensures SerializeForm(req, enabled, oldCtx) == Ok(ThrottleCtx(7, Minute))
  {
    TrimSpaceNoOp("+007");
    TrimSpaceNoOp("01");
    AtoiLeadingZeros();
  }

  /** A unit that does not parse is rejected as malformed once the maximum is valid. */
  lemma SerializeFormRejectsMalformedUnit(req: Request, enabled: bool, oldCtx: Option<Context>, max: int, unit: string)
    requires 0 <= max <= MaxInt64 && FormValue(req, "restriction_throttle_max") == Itoa(max)
    requires FormValue(req, "restriction_throttle_unit") == unit && !IsDecimal(TrimSpace(unit))
    ensures SerializeForm(req, enabled, oldCtx) == Err("Malformed throttle unit given.")
  {
    TrimSpaceOfItoa(max);
    AtoiItoa(max);
  }

  /** A unit outside Second..Day is rejected even though it parses. */
  lemma SerializeFormRejectsUnit(req: Request, enabled: bool, oldCtx: Option<Context>, max: int, unit: int)
    requires 0 <= max <= MaxInt64 && InInt64(unit) && !(Second <= unit <= Day)
    requires FormValue(req, "restriction_throttle_max") == Itoa(max)
    requires FormValue(req, "restriction_throttle_unit") == Itoa(unit)
    ensures SerializeForm(req, enabled, oldCtx) == Err("Invalid throttle unit given.")
  {
    TrimSpaceOfItoa(max);
    TrimSpaceOfItoa(unit);
    AtoiItoa(max);
    AtoiItoa(unit);
  }

  /** A negative maximum is rejected as malformed. */
  lemma SerializeFormRejectsNegative(req: Request, enabled: bool, oldCtx: Option<Context>, max: int)
    requires MinInt64 <= max < 0
    requires FormValue(req, "restriction_throttle_max") == Itoa(max)
    ensures SerializeForm(req, enabled, oldCtx) == Err("Malformed number given for the request limit.")
  {
    TrimSpaceOfItoa(max);
    AtoiItoa(max);
  }

  /** The null context is null, and a successfully read context with a positive maximum is not. */
  lemma NullContextIsNull(ctx: Context)
    requires ctx.ThrottleCtx? && ctx.maxHits > 0
    ensures IsNullContext(NullContext()) && !IsNullContext(ctx)
  {
  }
}
